/**
 * The handlers of the user routes: list the caller's users, and register a
 * name under the caller's session. No handler updates or deletes a user, so
 * through these routes the `users` table only grows.
 */
module UserRoutes {
  import opened Common
  import opened Body
  import opened Http
  import opened Session
  import opened Store

  /** GET `/`: the caller's users. The session guard has already rejected a missing cookie. */
  function List(users: seq<User>, cookie: Option<string>): (r: seq<User>)
    requires Present(cookie)
    ensures forall u :: u in r <==> u in users && u.sessionId == cookie.value
    ensures forall u :: multiset(r)[u] == if u.sessionId == cookie.value then multiset(users)[u] else 0
  {
    UsersOfMultiset(users, cookie.value);
    UsersOf(users, cookie.value)
  }

  /**
   * POST `/`: validate the name, resolve the session (issuing a token and
   * setting the cookie when none is presented), append one row, reply 201.
   */
  method Create(db: Database, cookie: Option<string>, body: Json, issuedSession: string, userId: string)
    returns (reply: Reply)
    requires issuedSession != ""
    requires !HasUserId(db.users, userId)
    modifies db
    ensures db.meals == old(db.meals)
    ensures old(db.Valid()) ==> db.Valid()
    ensures old(db.users) <= db.users
    ensures match ParseUser(body)
      case Failure(e) => reply == Rejected(e) && db.users == old(db.users)
      case Success(name) =>
        var s := Resolve(cookie, issuedSession);
        reply == Status(StatusCreated, s.setCookie) &&
        db.users == old(db.users) + [User(userId, name, s.sessionId)]
  {
    var parsed := ParseUser(body);
    if parsed.Failure? {
      return Rejected(parsed.error);
    }
    var sessionId := cookie;
    var setCookie := None;
    if !Present(sessionId) {
      sessionId := Some(issuedSession);
      setCookie := Some(Cookie(CookieName, issuedSession, CookiePath, CookieMaxAge));
    }
    var row := User(userId, parsed.value, sessionId.value);
    if db.Valid() {
      AppendKeepsDistinctUsers(db.users, row);
    }
    db.users := db.users + [row];
    reply := Status(StatusCreated, setCookie);
  }

  /** A registered user shows up in its own session's list and in no other. */
  lemma CreateShowsInOwnSessionOnly(users: seq<User>, row: User, other: string)
    requires row.sessionId != "" && other != "" && other != row.sessionId
    ensures List(users + [row], Some(row.sessionId)) == List(users, Some(row.sessionId)) + [row]
    ensures List(users + [row], Some(other)) == List(users, Some(other))
  {
    UsersOfAppend(users, row, row.sessionId);
    UsersOfAppend(users, row, other);
  }
}
