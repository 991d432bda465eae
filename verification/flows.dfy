/** Properties of the auth views across several requests from one client:
    register then log in, register twice, stay logged in, log out. */
module Flows {
  import opened Wrappers
  import opened Passwords
  import opened Users
  import opened Sessions
  import opened Auth

  /** A request to one of the auth views. */
  datatype Action =
    | RegisterRequest(salt: Salt, req: Request)
    | LoginRequest(req: Request)
    | LogoutRequest

  /** Dispatch one request to its view. */
  function Handle(h: Hasher, app: App, a: Action): (r: Response)
    ensures Valid(app.users) ==> Valid(r.app.users)
    ensures |r.app.users| >= |app.users| && r.app.users[..|app.users|] == app.users
  {
    match a
    case RegisterRequest(salt, req) => Register(h, salt, app, req)
    case LoginRequest(req) => Login(h, app, req)
    case LogoutRequest => Logout(app)
  }

  /** The state after a sequence of requests, handled one after another. */
  function Run(h: Hasher, app: App, actions: seq<Action>): (r: App)
    // the table invariant holds after any sequence of requests
    ensures Valid(app.users) ==> Valid(r.users)
    // rows are only ever appended
    ensures |r.users| >= |app.users| && r.users[..|app.users|] == app.users
    decreases |actions|
  {
    if |actions| == 0 then app
    else Run(h, Handle(h, app, actions[0]).app, actions[1..])
  }

  /** Handling one more request extends a run by that request. */
  lemma {:induction false} RunSnoc(h: Hasher, app: App, actions: seq<Action>, a: Action)
    ensures Run(h, app, actions + [a]) == Handle(h, Run(h, app, actions), a).app
    decreases |actions|
  {
    if |actions| == 0 {
      assert actions + [a] == [a];
      assert [a][1..] == [];
    } else {
      assert (actions + [a])[0] == actions[0];
      assert (actions + [a])[1..] == actions[1..] + [a];
      RunSnoc(h, Handle(h, app, actions[0]).app, actions[1..], a);
    }
  }

  /** A successful login makes the matched user the current user of the
      next request. */
  lemma LoginThenLoad(h: Hasher, app: App, f: Form, u: User)
    requires Valid(app.users)
    requires u in app.users && u.username == f.username
    requires h.check(u.password, f.password)
    ensures Login(h, app, Post(f)).outcome == RedirectToIndex
    ensures LoadLoggedInUser(Login(h, app, Post(f)).app) == Some(u)
  {
    var r := Login(h, app, Post(f));
    assert r.app.session == map[UserIdKey := u.id];
    SelectUnique(app.users, Id(u.id), u);
  }

  /** A failed login keeps whoever was logged in before. */
  lemma FailedLoginKeepsUser(h: Hasher, app: App, req: Request)
    requires Login(h, app, req).outcome != RedirectToIndex
    ensures LoadLoggedInUser(Login(h, app, req).app) == LoadLoggedInUser(app)
  {
  }

  /** A new account, registered with a sound hash, can log in with the
      password it was registered with, and becomes the current user. */
  lemma {:induction false} RegisterThenLogin(h: Hasher, salt: Salt, app: App, f: Form)
    requires Sound(h)
    requires Valid(app.users)
    requires f.username != "" && f.password != ""
    requires !Contains(app.users, Username(f.username))
    ensures
      var registered := Register(h, salt, app, Post(f)).app;
      var loggedIn := Login(h, registered, Post(f));
      && loggedIn.outcome == RedirectToIndex
      && LoadLoggedInUser(loggedIn.app) == Some(registered.users[|app.users|])
      && registered.users[|app.users|].username == f.username
  {
    var registered := Register(h, salt, app, Post(f)).app;
    var u := registered.users[|app.users|];
    assert u in registered.users;
    assert h.check(h.generate(f.password, salt), f.password);
    LoginThenLoad(h, registered, f, u);
  }

  /** Registering the same username twice: the second attempt is reported as
      a duplicate and does not change the table. */
  lemma RegisterTwice(h: Hasher, salt1: Salt, salt2: Salt, app: App, f: Form, g: Form)
    requires f.username != "" && f.password != ""
    requires g.username == f.username && g.password != ""
    ensures
      var first := Register(h, salt1, app, Post(f)).app;
      var second := Register(h, salt2, first, Post(g));
      && second.outcome == Render(RegisterPage, Some(AlreadyRegistered(f.username)))
      && second.app == first
  {
    var first := Register(h, salt1, app, Post(f)).app;
    if !Contains(app.users, Username(f.username)) {
      var u := first.users[|app.users|];
      assert u in first.users && Matches(u, Username(f.username));
    }
  }

  /** Registering someone else keeps the current user of this client. */
  lemma {:induction false} RegisterKeepsUser(h: Hasher, salt: Salt, app: App, req: Request)
    requires LoadLoggedInUser(app).Some?
    ensures LoadLoggedInUser(Register(h, salt, app, req).app) == LoadLoggedInUser(app)
  {
    var r := Register(h, salt, app, req);
    if r.app.users != app.users {
      var n := |app.users|;
      assert r.app.users == app.users + [r.app.users[n]] by {
        assert r.app.users[..n] == app.users;
      }
      SelectAppend(app.users, r.app.users[n], Id(app.session[UserIdKey]));
    }
  }

  /** The requests of a run that can change who is logged in on this client:
      a logout, or a login that succeeds in the state the run has reached. */
  predicate KeepsSession(h: Hasher, app: App, actions: seq<Action>) {
    && (forall i | 0 <= i < |actions| :: !actions[i].LogoutRequest?)
    && (forall i | 0 <= i < |actions| && actions[i].LoginRequest? ::
          Login(h, Run(h, app, actions[..i]), actions[i].req).outcome != RedirectToIndex)
  }

  /** Once logged in, a client stays logged in as the same user on every later
      request until it logs out or logs in again. Registrations by anyone,
      GETs of the login form and failed logins in between change nothing. */
  lemma StaysLoggedIn(h: Hasher, app: App, actions: seq<Action>, u: User)
    requires LoadLoggedInUser(app) == Some(u)
    requires KeepsSession(h, app, actions)
    ensures LoadLoggedInUser(Run(h, app, actions)) == Some(u)
  {
    StaysLoggedInPrefix(h, app, actions, u, |actions|);
    assert actions[..|actions|] == actions;
  }

  /** `StaysLoggedIn` for the first `k` requests of the run. */
  lemma {:induction false} StaysLoggedInPrefix(h: Hasher, app: App, actions: seq<Action>, u: User, k: nat)
    requires LoadLoggedInUser(app) == Some(u)
    requires KeepsSession(h, app, actions)
    requires k <= |actions|
    ensures LoadLoggedInUser(Run(h, app, actions[..k])) == Some(u)
  {
    if k > 0 {
      StaysLoggedInPrefix(h, app, actions, u, k - 1);
      var before := Run(h, app, actions[..k - 1]);
      var a := actions[k - 1];
      assert actions[..k] == actions[..k - 1] + [a];
      RunSnoc(h, app, actions[..k - 1], a);
      match a
      case RegisterRequest(salt, req) =>
        RegisterKeepsUser(h, salt, before, req);
      case LoginRequest(req) =>
        FailedLoginKeepsUser(h, before, req);
    }
  }

  /** Whatever came before, a run ending in a logout leaves the client
      anonymous, so every guarded view redirects to the login page. */
  lemma LogoutEndsSession<K, R>(h: Hasher, app: App, actions: seq<Action>, view: K -> R, kwargs: K)
    ensures LoadLoggedInUser(Run(h, app, actions + [LogoutRequest])).None?
    ensures LoginRequired(LoadLoggedInUser(Run(h, app, actions + [LogoutRequest])), view, kwargs).RedirectedToLogin?
  {
    RunSnoc(h, app, actions, LogoutRequest);
  }
}
