/** The `user` table of the sqlite store, as seen by the authentication flow.

    A table is the sequence of its rows in insertion order. The schema file is
    not part of this model. The model assumes that `username` is UNIQUE, as
    the comment at flaskr/auth.py:43 states, and that `id` is an AUTOINCREMENT
    primary key. */
module Users {
  import opened Wrappers

  /** One row. The column `password` holds the hash, never the plaintext. */
  datatype User = User(id: int, username: string, password: string)

  type Table = seq<User>

  /** The UNIQUE constraint on `username`. */
  predicate UniqueUsernames(t: Table) {
    forall i, j | 0 <= i < |t| && 0 <= j < |t| && t[i].username == t[j].username :: i == j
  }

  /** The PRIMARY KEY constraint on `id`. */
  predicate UniqueIds(t: Table) {
    forall i, j | 0 <= i < |t| && 0 <= j < |t| && t[i].id == t[j].id :: i == j
  }

  /** The table invariant the store maintains. */
  predicate Valid(t: Table) {
    UniqueUsernames(t) && UniqueIds(t)
  }

  /** The column a `SELECT * FROM user WHERE ... = ?` filters on, with its value. */
  datatype Key = Username(name: string) | Id(id: int)

  predicate Matches(u: User, k: Key) {
    match k
    case Username(name) => u.username == name
    case Id(id) => u.id == id
  }

  /** Some row of the table matches the key. */
  predicate Contains(t: Table, k: Key) {
    exists u | u in t :: Matches(u, k)
  }

  /** `SELECT * FROM user WHERE <key> = ?` followed by `fetchone()`: a matching
      row, or `None` when no row matches. The model returns the first match in
      insertion order. Under `Valid` at most one row matches either key
      (`SelectUnique`), so the order in which sqlite finds rows does not matter. */
  function Select(t: Table, k: Key): (r: Option<User>)
    ensures r.Some? <==> Contains(t, k)
    ensures r.Some? ==> r.value in t && Matches(r.value, k)
    ensures r.Some? ==> exists i | 0 <= i < |t| :: t[i] == r.value && forall j | 0 <= j < i :: !Matches(t[j], k)
    decreases |t|
  {
    if |t| == 0 then None
    else if Matches(t[0], k) then Some(t[0])
    else
      Select(t[1..], k)
  }

  /** Under the table invariant at most one row matches a key, so `fetchone()`
      returns that row whatever order sqlite finds rows in. */
  lemma {:induction false} SelectUnique(t: Table, k: Key, u: User)
    requires Valid(t)
    requires u in t && Matches(u, k)
    ensures Select(t, k) == Some(u)
  {
    var r := Select(t, k);
    var i :| 0 <= i < |t| && t[i] == r.value;
    var j :| 0 <= j < |t| && t[j] == u;
    match k
    case Username(name) =>
      assert t[i].username == t[j].username;
    case Id(id) =>
      assert t[i].id == t[j].id;
  }

  /** A row appended at the end is only found when no earlier row matches. */
  lemma {:induction false} SelectAppend(t: Table, u: User, k: Key)
    ensures Select(t + [u], k) == if Contains(t, k) then Select(t, k) else if Matches(u, k) then Some(u) else None
    decreases |t|
  {
    if |t| == 0 {
      assert t + [u] == [u];
      assert [u][1..] == [];
    } else {
      assert (t + [u])[0] == t[0];
      assert (t + [u])[1..] == t[1..] + [u];
      if !Matches(t[0], k) {
        SelectAppend(t[1..], u, k);
        assert Contains(t, k) <==> Contains(t[1..], k) by {
          if Contains(t, k) {
            var v :| v in t && Matches(v, k);
            assert v in t[1..] by {
              var i :| 0 <= i < |t| && t[i] == v;
              assert i != 0;
              assert t[1..][i - 1] == v;
            }
          }
          if Contains(t[1..], k) {
            var v :| v in t[1..] && Matches(v, k);
            assert v in t;
          }
        }
      }
    }
  }

  /** The largest id in use, or 0 in an empty table. */
  function MaxId(t: Table): (m: int)
    ensures m >= 0
    ensures forall u | u in t :: u.id <= m
    ensures m == 0 || exists u | u in t :: u.id == m
    decreases |t|
  {
    if |t| == 0 then 0
    else
      var rest := MaxId(t[1..]);
      assert forall u | u in t :: u == t[0] || u in t[1..];
      if t[0].id > rest then t[0].id else rest
  }

  /** The id the next row gets, assuming an AUTOINCREMENT key: one past every
      id ever used, which is every id in the table because rows are never
      deleted. */
  function NextId(t: Table): (n: int)
    ensures n >= 1
    ensures !Contains(t, Id(n))
    ensures n == 1 || exists u | u in t :: u.id == n - 1
  {
    MaxId(t) + 1
  }

  /** The only failure of an insert the flow catches: a violated constraint. */
  datatype StoreError = IntegrityError

  /** `INSERT INTO user (username, password) VALUES (?, ?)` and its commit. */
  function Insert(t: Table, username: string, password: string): (r: Result<Table, StoreError>)
    ensures r.Failure? <==> Contains(t, Username(username))
    ensures r.Success? ==>
      && |r.value| == |t| + 1
      && r.value[..|t|] == t
      && r.value[|t|].username == username
      && r.value[|t|].password == password
      && !Contains(t, Id(r.value[|t|].id))
    ensures r.Success? && Valid(t) ==> Valid(r.value)
  {
    if Contains(t, Username(username)) then Failure(IntegrityError)
    else
      var row := User(NextId(t), username, password);
      var t' := t + [row];
      assert t'[..|t|] == t;
      assert forall i | 0 <= i < |t| :: t'[i] == t[i] && t[i] in t;
      assert forall i | 0 <= i < |t| :: t'[i].username != username && t'[i].id != row.id;
      Success(t')
  }
}
