# flaskr authentication, modelled in Dafny

This project models the authentication blueprint of the Flask tutorial blog
`flaskr`. That covers registration, login, logout, the per-request resolution
of the logged-in user (`g.user`) and the `login_required` guard. Each view is a
pure function. It takes the application state and the request. It returns the
outcome the view would produce and the state the request leaves.

- **State** (`Auth.App`): the `user` table (`Users.Table`, rows in insertion
  order) and the client's session (`Sessions.Session`, a dictionary keyed by
  strings).
- **Request** (`Auth.Request`): a GET, or a POST carrying the `username` and
  `password` form fields.
- **Outcome** (`Auth.Outcome`): a rendered form with the message `flash` queued
  for it, a redirect to the login page, or a redirect to the index.
  `login_required` returns `Auth.Guarded`: a redirect, or the wrapped view's
  own response.
- **Hashing** (`Passwords.Hasher`): werkzeug's `generate_password_hash` and
  `check_password_hash` as a pair of functions given as a parameter. The random
  salt is a parameter too. The only assumption made about them is
  `Passwords.Sound`: a hash made from a password verifies against that password.
  It is used only by the register-then-login lemma.
- **Store** (`Users`): `SELECT * ... WHERE <column> = ?` followed by
  `fetchone()` is `Users.Select`, and the INSERT is `Users.Insert`. The insert
  fails with `IntegrityError` when the username is taken. The schema file is
  not part of this model. The comment at `flaskr/auth.py:43` says `username`
  is UNIQUE. The model keeps that constraint and the primary key on `id` as
  the invariant `Users.Valid`. Under it, at most one row matches a username or
  an id, so the order in which sqlite finds rows does not matter. The model
  assumes that `id` is an AUTOINCREMENT key. A new id is then one past the
  largest id in use. Rows are never deleted, so that is also one past the
  largest id ever used.

The column `password` holds the hash. The messages are the code's exact
strings, for example `"Username is required."`.

## Model

| member | source | states |
|---|---|---|
| Auth.ValidateRegistration | flaskr/auth.py:25-30 | An empty username is reported first, even when the password is also empty. Otherwise an empty password is reported. Both fields non-empty is the only input that passes. |
| Auth.Register | flaskr/auth.py:20-53 | A GET renders the form. Each validation error renders the form with its message and changes nothing. A taken username gives "User {username} is already registered." with the table unchanged. A fresh username appends exactly one row. That row has the username, the hash of the password and an id no other row has. Earlier rows and the session stay the same, and the outcome is a redirect to login, not a login. Uniqueness of usernames and ids is preserved. |
| Auth.Login | flaskr/auth.py:59-81 | The table is never written. An unknown username gives "Incorrect username.". A known username whose hash rejects the password gives "Incorrect password.". Every failure leaves the session as it was. A success happens exactly when some row with that username accepts the password. The new session then holds only `user_id` set to that row's id, and the outcome is a redirect to the index. |
| Auth.LoadLoggedInUser | flaskr/auth.py:87-97 | The current user is None exactly when the session has no `user_id` or no row has that id. Otherwise it is a row of the table with that id. It returns only the user, so it writes neither the session nor the table. |
| Auth.Logout | flaskr/auth.py:102-104 | The session ends up empty whatever it held, and the next request is anonymous. The table is untouched, and the outcome is a redirect to the index. |
| Auth.LogoutIdempotent | flaskr/auth.py:102-104 | Logging out twice gives the same response and state as logging out once. |
| Auth.LoginRequired | flaskr/auth.py:112-120 | The wrapped view is invoked exactly when the current user is not None, and its response is returned unchanged. Otherwise the result is a redirect to login, without invoking the view. |
| Auth.AlreadyRegistered | flaskr/auth.py:45 | The duplicate-username message is "User ", then the username verbatim, then " is already registered.". |
| Users.Select | flaskr/auth.py:65-67 | A row is found exactly when some row matches the key. The row found matches the key, and no earlier row does. |
| Users.SelectUnique | flaskr/auth.py:95-97 | Under the uniqueness invariant, a lookup by username or by id returns the one row that matches. |
| Users.SelectAppend | flaskr/auth.py:34-40 | Appending a row changes a lookup only when no earlier row matched and the new row matches. |
| Users.Insert | flaskr/auth.py:34-45 | The insert fails exactly when the username is already present. Otherwise it appends one row with the given username and hash and a fresh id, keeping every earlier row. A valid table stays valid. |
| Users.MaxId | flaskr/auth.py:36 | It is the largest id in the table, or 0 when no row has a positive id: no id exceeds it, and unless it is 0 some row carries it. |
| Users.NextId | flaskr/auth.py:36 | Under the AUTOINCREMENT assumption, the id given to an inserted row is positive and held by no existing row. It is 1, or one past an id some row carries. |
| Sessions.UserId | flaskr/auth.py:88 | `session.get('user_id')` is present exactly when the key is in the session, and then it is the stored value. |
| Sessions.Clear | flaskr/auth.py:75 | After `session.clear()` the session holds no key, so no user id. |
| Sessions.SetUserId | flaskr/auth.py:76 | After the assignment the session holds the given id under `user_id`, and every other key keeps its value. |
| Flows.Handle | flaskr/auth.py:18-110 | Any single auth request keeps the table invariant and only appends rows. |
| Flows.Run | flaskr/auth.py:18-110 | After any sequence of auth requests the table invariant still holds, and every earlier row is still in place. |
| Flows.RunSnoc | flaskr/auth.py:18-110 | A run followed by one more request is that request handled in the state the run left. |
| Flows.LoginThenLoad | flaskr/auth.py:74-97 | A login whose username and password match a row redirects to the index. On the next request that exact row is the current user. |
| Flows.FailedLoginKeepsUser | flaskr/auth.py:69-81 | A failed login leaves the current user of the next request unchanged. |
| Flows.RegisterThenLogin | flaskr/auth.py:34-77 | Register a fresh username, then log in with the same password under a sound hash pair. The login succeeds, and the newly inserted row becomes the current user. |
| Flows.RegisterTwice | flaskr/auth.py:43-45 | A second registration of the same username is reported as already registered and leaves the whole state unchanged. This holds whatever the first attempt did. |
| Flows.RegisterKeepsUser | flaskr/auth.py:87-97 | A registration, by anyone, does not change who the current user of a logged-in client is. |
| Flows.StaysLoggedIn | flaskr/auth.py:85-104 | A logged-in client stays logged in as the same user on every later request until it logs out or logs in successfully again. Any registration, any GET of the login form and any failed login in between keep it. |
| Flows.StaysLoggedInPrefix | flaskr/auth.py:85-104 | The same holds after each prefix of such a run. |
| Flows.LogoutEndsSession | flaskr/auth.py:100-120 | After any sequence of requests ending in a logout, the client is anonymous, and every view guarded by `login_required` redirects to login. |

## Left out

- `flaskr/db.py`: connection caching in `g`, teardown and the `init-db` command are connection and I/O plumbing. The store is the pure `Users.Table`.
- `flaskr/__init__.py`: the app factory, configuration, the instance folder, the `/hello` route and blueprint registration.
- The `blog` blueprint is not part of this model. Posts, their listing and the ownership checks are not modelled.
- The second, identical `logout` definition (flaskr/auth.py:107-110) is modelled once, as `Auth.Logout`. What Flask does when the same endpoint is registered twice is not modelled.
- `render_template`, `redirect` and `url_for` appear only as outcome tags. Template rendering is not modelled.
- `flash` stores its message in the session in Flask. The model carries the message in the `Render` outcome instead, so the session of a failed request is exactly the session before it.
- Session values are abstracted to integers, because the flow only ever stores the user id. Cookie signing and expiry are not modelled.
- A POST missing a form field makes Flask answer 400 before the view's logic runs. The model's `Form` always carries both fields.
- Store failures other than the `IntegrityError` that `register` catches propagate out of the view in the source. They are not modelled.
- werkzeug's hash algorithm and salt generation: the model takes the hash pair and the salt as parameters.
- `g.user` is not a mutable global here. `Auth.LoadLoggedInUser` returns it, and `Auth.LoginRequired` takes it as an argument.
