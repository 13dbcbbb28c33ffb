/**
 * Clients of the handlers: short request sequences against a new store,
 * each stating what the later requests observe.
 */
module Scenarios {
  import opened Common
  import opened Body
  import opened Http
  import opened Session
  import opened Store
  import MealsRoutes
  import UserRoutes

  /**
   * A visitor without a cookie creates one in-diet meal; presenting the
   * cookie that reply set, it then sees metrics of one meal, in the diet.
   */
  method OneMealMetrics(issued: string, mealId: string) returns (token: string, metrics: seq<MealsRoutes.MetricsRow>)
    requires issued != ""
    ensures token == issued
    ensures metrics == [MealsRoutes.MetricsRow(1, 1, 0)]
  {
    var db := new Database();
    var reply := MealsRoutes.Create(db, None, EncodeMeal(MealFields("Oatmeal", "breakfast", true), CreateMealSchema), issued, mealId);
    MealRoundTrip(MealFields("Oatmeal", "breakfast", true), CreateMealSchema);
    token := reply.setCookie.value.value;
    MealsRoutes.CreateBumpsMetrics([], db.meals[0]);
    metrics := MealsRoutes.Metrics(db.meals, Some(token));
  }

  /**
   * The same visitor creates one meal in the diet and, reusing the cookie,
   * one off it; the second reply sets no cookie and the metrics count both.
   */
  method TwoMealsMetrics(issued: string, unused: string, firstId: string, secondId: string)
    returns (secondCookie: Option<Cookie>, metrics: seq<MealsRoutes.MetricsRow>)
    requires issued != "" && unused != "" && firstId != secondId
    ensures secondCookie == None
    ensures metrics == [MealsRoutes.MetricsRow(2, 1, 1)]
  {
    var db := new Database();
    var first := MealFields("Oatmeal", "breakfast", true);
    var second := MealFields("Cake", "dessert", false);
    MealRoundTrip(first, CreateMealSchema);
    MealRoundTrip(second, CreateMealSchema);
    var reply := MealsRoutes.Create(db, None, EncodeMeal(first, CreateMealSchema), issued, firstId);
    var token := reply.setCookie.value.value;
    var row1 := Meal(firstId, "Oatmeal", "breakfast", Some(true), issued);
    assert token == issued && db.meals == [row1];
    reply := MealsRoutes.Create(db, Some(token), EncodeMeal(second, CreateMealSchema), unused, secondId);
    secondCookie := reply.setCookie;
    var row2 := Meal(secondId, "Cake", "dessert", Some(false), issued);
    assert db.meals == [row1] + [row2];
    OneInOneOff(row1, row2);
    metrics := MealsRoutes.Metrics(db.meals, Some(token));
  }

  /** Metrics over one in-diet row and then one off-diet row of the same session. */
  lemma OneInOneOff(row1: Meal, row2: Meal)
    requires row1.sessionId != "" && row2.sessionId == row1.sessionId
    requires row1.inDiet == Some(true) && row2.inDiet == Some(false)
    ensures MealsRoutes.Metrics([row1] + [row2], Some(row1.sessionId)) == [MealsRoutes.MetricsRow(2, 1, 1)]
  {
    var session := Some(row1.sessionId);
    assert MealsRoutes.Metrics([], session)[0] == MealsRoutes.MetricsRow(0, 0, 0);
    assert [] + [row1] == [row1];
    MealsRoutes.CreateBumpsMetrics([], row1);
    assert MealsRoutes.Metrics([row1], session)[0] == MealsRoutes.MetricsRow(1, 1, 0);
    MealsRoutes.CreateBumpsMetrics([row1], row2);
  }

  /**
   * Session A creates a meal; session B looks it up by id and gets an empty
   * list, while A gets the meal.
   */
  method LookupAcrossSessions(sessionA: string, sessionB: string, mealId: string)
    returns (seenByB: seq<Meal>, seenByA: seq<Meal>)
    requires sessionA != "" && sessionB != "" && sessionA != sessionB
    ensures seenByB == []
    ensures |seenByA| == 1 && seenByA[0].id == mealId && seenByA[0].sessionId == sessionA
  {
    var db := new Database();
    var fields := MealFields("Oatmeal", "breakfast", true);
    MealRoundTrip(fields, CreateMealSchema);
    var _ := MealsRoutes.Create(db, Some(sessionA), EncodeMeal(fields, CreateMealSchema), sessionB, mealId);
    var meal := Meal(mealId, "Oatmeal", "breakfast", Some(true), sessionA);
    assert db.meals == [meal];
    LookupOneRow(meal, sessionB);
    seenByB := MealsRoutes.Get(db.meals, Some(sessionB), mealId);
    seenByA := MealsRoutes.Get(db.meals, Some(sessionA), mealId);
  }

  /** A table of one row: its owner finds it by id, any other session finds nothing. */
  lemma LookupOneRow(meal: Meal, other: string)
    requires meal.sessionId != "" && other != "" && other != meal.sessionId
    ensures MealsRoutes.Get([meal], Some(meal.sessionId), meal.id) == [meal]
    ensures MealsRoutes.Get([meal], Some(other), meal.id) == []
  {
    assert Matches(meal, [BySession(meal.sessionId), ById(meal.id)]);
    assert !Matches(meal, [BySession(other), ById(meal.id)]);
  }

  /**
   * A visitor registers a name without a cookie and lists users with the
   * cookie it was given: exactly that one user.
   */
  method RegisterThenList(issued: string, userId: string) returns (listed: seq<User>)
    requires issued != ""
    ensures listed == [User(userId, "Ana", issued)]
  {
    var db := new Database();
    UserRoundTrip("Ana");
    var reply := UserRoutes.Create(db, None, EncodeUser("Ana"), issued, userId);
    var token := reply.setCookie.value.value;
    UsersOfAppend([], db.users[0], token);
    listed := UserRoutes.List(db.users, Some(token));
  }
}
