/** The client session: Flask's signed-cookie dictionary.

    Keys are strings; values are abstracted to integers, which is all the
    authentication flow ever stores. */
module Sessions {
  import opened Wrappers

  type Session = map<string, int>

  /** The one key the authentication flow reads and writes. */
  const UserIdKey: string := "user_id"

  /** `session.get('user_id')`. */
  function UserId(s: Session): (r: Option<int>)
    ensures r.Some? <==> UserIdKey in s
    ensures r.Some? ==> r.value == s[UserIdKey]
  {
    if UserIdKey in s then Some(s[UserIdKey]) else None
  }

  /** `session.clear()`: every key is dropped, whatever was there. */
  function Clear(s: Session): (r: Session)
    ensures |r| == 0
    ensures UserId(r).None?
  {
    map[]
  }

  /** `session['user_id'] = id`: the id is stored, every other key is kept. */
  function SetUserId(s: Session, id: int): (r: Session)
    ensures UserId(r) == Some(id)
    ensures forall k :: k in s && k != UserIdKey ==> k in r && r[k] == s[k]
    ensures r.Keys == s.Keys + {UserIdKey}
  {
    s[UserIdKey := id]
  }
}
