/**
 * The handlers of the meals routes, run against a store handle.
 *
 * The three reads are queries over the `meals` table; the three writes
 * reassign it. Every read and the update filter by the caller's session;
 * the delete filters by id alone.
 */
module MealsRoutes {
  import opened Common
  import opened Body
  import opened Http
  import opened Session
  import opened Store

  /** The single row of the metrics aggregate. */
  datatype MetricsRow = MetricsRow(totalMeals: nat, totalInTheDiet: nat, totalOffDiet: nat)

  /** GET `/`: the caller's meals. The session guard has already rejected a missing cookie. */
  function List(meals: seq<Meal>, cookie: Option<string>): (r: seq<Meal>)
    requires Present(cookie)
    ensures forall m :: m in r <==> m in meals && m.sessionId == cookie.value
  {
    Select(meals, [BySession(cookie.value)])
  }

  /** GET `/:id`: the caller's meals with that id; another session's meal gives an empty list. */
  function Get(meals: seq<Meal>, cookie: Option<string>, id: string): (r: seq<Meal>)
    requires Present(cookie)
    ensures forall m :: m in r <==> m in meals && m.sessionId == cookie.value && m.id == id
  {
    Select(meals, [BySession(cookie.value), ById(id)])
  }

  /**
   * GET `/metrics`: one aggregate row over the caller's meals. Its total is
   * the size of the caller's list; the in-diet and off-diet counts are the
   * rows of that list with `in_dient` true and false, and they add up to the
   * total whenever no `in_dient` is NULL.
   */
  function Metrics(meals: seq<Meal>, cookie: Option<string>): (r: seq<MetricsRow>)
    requires Present(cookie)
    ensures |r| == 1
    ensures r[0].totalMeals == |List(meals, cookie)|
    ensures r[0].totalInTheDiet == |Select(List(meals, cookie), [ByInDiet(true)])|
    ensures r[0].totalOffDiet == |Select(List(meals, cookie), [ByInDiet(false)])|
    ensures r[0].totalInTheDiet + r[0].totalOffDiet <= r[0].totalMeals
    ensures AllFlagged(meals) ==> r[0].totalMeals == r[0].totalInTheDiet + r[0].totalOffDiet
  {
    var w := [BySession(cookie.value)];
    SelectComposes(meals, w, [ByInDiet(true)]);
    SelectComposes(meals, w, [ByInDiet(false)]);
    InDietSplit(meals, w);
    [MetricsRow(|Select(meals, w)|,
                |Select(meals, w + [ByInDiet(true)])|,
                |Select(meals, w + [ByInDiet(false)])|)]
  }

  /**
   * POST `/`: validate the body, resolve the session (issuing a token and
   * setting the cookie when none is presented), append one row, reply 201.
   */
  method Create(db: Database, cookie: Option<string>, body: Json, issuedSession: string, mealId: string)
    returns (reply: Reply)
    requires issuedSession != ""
    requires !HasMealId(db.meals, mealId)
    modifies db
    ensures db.users == old(db.users)
    ensures old(db.Valid()) ==> db.Valid()
    ensures match ParseMeal(body, CreateMealSchema)
      case Failure(e) => reply == Rejected(e) && db.meals == old(db.meals)
      case Success(f) =>
        var s := Resolve(cookie, issuedSession);
        reply == Status(StatusCreated, s.setCookie) &&
        db.meals == old(db.meals) + [Meal(mealId, f.name, f.description, Some(f.inDiet), s.sessionId)]
  {
    var parsed := ParseMeal(body, CreateMealSchema);
    if parsed.Failure? {
      return Rejected(parsed.error);
    }
    var f := parsed.value;
    var sessionId := cookie;
    var setCookie := None;
    if !Present(sessionId) {
      sessionId := Some(issuedSession);
      setCookie := Some(Cookie(CookieName, issuedSession, CookiePath, CookieMaxAge));
    }
    var row := Meal(mealId, f.name, f.description, Some(f.inDiet), sessionId.value);
    if db.Valid() {
      AppendKeepsDistinct(db.meals, row);
    }
    db.meals := db.meals + [row];
    reply := Status(StatusCreated, setCookie);
  }

  /**
   * PUT `/:id`: validate the body, then set the three fields on the rows of
   * the caller's session with that id, and reply 204 whether or not a row
   * matched. Without a cookie the session filter has no value to bind and
   * the statement is refused.
   */
  method Update(db: Database, cookie: Option<string>, id: string, body: Json) returns (reply: Reply)
    modifies db
    ensures db.users == old(db.users)
    ensures old(db.Valid()) ==> db.Valid()
    ensures match ParseMeal(body, UpdateMealSchema)
      case Failure(e) => reply == Rejected(e) && db.meals == old(db.meals)
      case Success(f) =>
        if cookie.None? then
          reply == QueryError(UndefinedBinding("session_id")) && db.meals == old(db.meals)
        else
          reply == Status(StatusNoContent, None) &&
          db.meals == UpdateWhere(old(db.meals), [BySession(cookie.value), ById(id)], f)
  {
    var parsed := ParseMeal(body, UpdateMealSchema);
    if parsed.Failure? {
      return Rejected(parsed.error);
    }
    if cookie.None? {
      return QueryError(UndefinedBinding("session_id"));
    }
    var w := [BySession(cookie.value), ById(id)];
    if db.Valid() {
      UpdateKeepsShape(db.meals, w, parsed.value);
    }
    db.meals := UpdateWhere(db.meals, w, parsed.value);
    reply := Status(StatusNoContent, None);
  }

  /**
   * DELETE `/:id`: remove every row with that id, whichever session owns it
   * (the cookie is read but not used), and reply 204.
   */
  method Delete(db: Database, cookie: Option<string>, id: string) returns (reply: Reply)
    modifies db
    ensures db.users == old(db.users)
    ensures old(db.Valid()) ==> db.Valid()
    ensures reply == Status(StatusNoContent, None)
    ensures db.meals == DeleteWhere(old(db.meals), [ById(id)])
    ensures forall m :: m in db.meals <==> m in old(db.meals) && m.id != id
  {
    if db.Valid() {
      DeleteKeepsDistinct(db.meals, [ById(id)]);
    }
    db.meals := DeleteWhere(db.meals, [ById(id)]);
    reply := Status(StatusNoContent, None);
  }

  /**
   * The delete as every other handler scopes its statement: by id and by the
   * caller's session. Without a cookie the session filter has no value to
   * bind and the statement is refused.
   */
  method DeleteOwned(db: Database, cookie: Option<string>, id: string) returns (reply: Reply)
    modifies db
    ensures db.users == old(db.users)
    ensures old(db.Valid()) ==> db.Valid()
    ensures cookie.None? ==>
      reply == QueryError(UndefinedBinding("session_id")) && db.meals == old(db.meals)
    ensures cookie.Some? ==>
      reply == Status(StatusNoContent, None) &&
      db.meals == DeleteWhere(old(db.meals), [ById(id), BySession(cookie.value)])
  {
    if cookie.None? {
      return QueryError(UndefinedBinding("session_id"));
    }
    var w := [ById(id), BySession(cookie.value)];
    if db.Valid() {
      DeleteKeepsDistinct(db.meals, w);
    }
    db.meals := DeleteWhere(db.meals, w);
    reply := Status(StatusNoContent, None);
  }

  /** With distinct ids, a lookup returns at most one meal. */
  lemma GetAtMostOne(meals: seq<Meal>, cookie: Option<string>, id: string)
    requires Present(cookie) && DistinctMealIds(meals)
    ensures |Get(meals, cookie, id)| <= 1
  {
    AtMostOneWithId(meals, [BySession(cookie.value), ById(id)], id);
  }

  /** With distinct ids, a delete removes at most one row. */
  lemma DeleteRemovesAtMostOne(meals: seq<Meal>, id: string)
    requires DistinctMealIds(meals)
    ensures |DeleteWhere(meals, [ById(id)])| >= |meals| - 1
  {
    AtMostOneWithId(meals, [ById(id)], id);
  }

  /** A created row shows up at the end of its own session's list. */
  lemma CreateShowsInOwnSession(meals: seq<Meal>, row: Meal)
    requires row.sessionId != ""
    ensures List(meals + [row], Some(row.sessionId)) == List(meals, Some(row.sessionId)) + [row]
  {
    SelectAppend(meals, row, [BySession(row.sessionId)]);
  }

  /**
   * A created row grows its session's metrics by one in the total and by
   * one in the count its flag selects.
   */
  lemma CreateBumpsMetrics(meals: seq<Meal>, row: Meal)
    requires row.sessionId != "" && row.inDiet.Some?
    ensures var before := Metrics(meals, Some(row.sessionId))[0];
      Metrics(meals + [row], Some(row.sessionId))[0] ==
        MetricsRow(before.totalMeals + 1,
                   before.totalInTheDiet + (if row.inDiet.value then 1 else 0),
                   before.totalOffDiet + (if row.inDiet.value then 0 else 1))
  {
    var w := [BySession(row.sessionId)];
    var yes := w + [ByInDiet(true)];
    var no := w + [ByInDiet(false)];
    assert Matches(row, w);
    assert Matches(row, yes) == row.inDiet.value;
    assert Matches(row, no) == !row.inDiet.value;
    SelectAppend(meals, row, w);
    SelectAppend(meals, row, yes);
    SelectAppend(meals, row, no);
  }

  /** A created row never shows up to any other session. */
  lemma CreateHiddenFromOthers(meals: seq<Meal>, row: Meal, other: string)
    requires other != "" && other != row.sessionId
    ensures List(meals + [row], Some(other)) == List(meals, Some(other))
    ensures Metrics(meals + [row], Some(other)) == Metrics(meals, Some(other))
  {
    var w := [BySession(other)];
    SelectAppend(meals, row, w);
    SelectAppend(meals, row, w + [ByInDiet(true)]);
    SelectAppend(meals, row, w + [ByInDiet(false)]);
  }

  /**
   * An update by one session leaves every other session's list and metrics
   * as they were, and its own total unchanged.
   */
  lemma UpdateLeavesOthers(meals: seq<Meal>, session: string, id: string, f: MealFields, other: string)
    requires other != "" && other != session
    ensures var updated := UpdateWhere(meals, [BySession(session), ById(id)], f);
      List(updated, Some(other)) == List(meals, Some(other)) &&
      Metrics(updated, Some(other)) == Metrics(meals, Some(other)) &&
      (session != "" ==>
        Metrics(updated, Some(session))[0].totalMeals == Metrics(meals, Some(session))[0].totalMeals)
  {
    UpdateIsolated(meals, session, id, f, other);
    UpdateKeepsSessionCount(meals, [BySession(session), ById(id)], f, session);
  }

  /** An update naming an id the session does not own changes nothing. */
  lemma UpdateOfUnownedIdIsNoOp(meals: seq<Meal>, session: string, id: string, f: MealFields)
    requires forall m :: m in meals && m.id == id ==> m.sessionId != session
    ensures UpdateWhere(meals, [BySession(session), ById(id)], f) == meals
  {
    UpdateNoMatch(meals, [BySession(session), ById(id)], f);
  }

  /**
   * The delete ignores the session: a session that does not own a meal can
   * still remove it from its owner's list.
   */
  lemma DeleteCrossesSessions()
    ensures var meal := Meal("m1", "Oatmeal", "breakfast", Some(true), "A");
      List([meal], Some("A")) == [meal] &&
      List(DeleteWhere([meal], [ById("m1")]), Some("A")) == []
  {
  }

  /** Scoped by session, the same request by the other session leaves the owner's list intact. */
  lemma DeleteOwnedLeavesOthers(meals: seq<Meal>, session: string, id: string, other: string)
    requires session != "" && other != "" && other != session
    ensures List(DeleteWhere(meals, [ById(id), BySession(session)]), Some(other)) == List(meals, Some(other))
  {
    DeleteOwnedIsolated(meals, session, id, other);
  }
}
