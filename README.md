# Daily diet API: session-scoped meals and users

This project models the core of a small REST API. The API records meals for anonymous visitors: a name, a description and whether the meal fits the visitor's diet. It also registers a display name for the visitor. A visitor is identified only by a `sessionId` cookie. Every meal and user row carries the session that created it. The handlers scope their reads and writes by that session, with one exception: delete.

The model is an in-memory store with two tables, `meals` and `users`, held as sequences of rows in a `Store.Database` object. Each route handler becomes one of these:

- a function over a table, for the GET queries;
- a method that reassigns a table, for POST, PUT and DELETE.

The request cookie is an `Option<string>`. The request body is a JSON value, which the handler parses against its schema. Randomness is passed in as parameters: the newly issued session token and the new row id.

Modules, one file each:

- `Common`: `Option` and `Result`.
- `Body`: JSON bodies and the schema checks. The create schema names the flag `in_dient`, the update schema names it `inDient`. Keys outside the schema are ignored.
- `Http`: cookies and replies (a status with an optional cookie, a rejected body, or a statement the query builder refused).
- `Session`: the cookie bootstrap. A missing or empty cookie gets the newly issued token and a `Set-Cookie` with path `/`. A present cookie is kept and no cookie is set.
- `Store`: the rows, and the `where` chains as data (a conjunction of column equalities; a NULL cell matches no equality). It also holds the select, delete and update statements these chains drive, and the `Database` class with its invariant `Valid`. `Valid` says every `in_dient` holds a boolean and ids are unique. That is true of every row these handlers write, and every handler preserves it.
- `MealsRoutes`: the handlers and properties of the meals routes.
- `UserRoutes`: the handlers and properties of the user routes.
- `Scenarios`: short request sequences against a new store, each stating what the later requests observe.

Where the intended design and the code differ, the model follows the code:

- **Metrics.** The intended identity is `totalMeals = totalInTheDiet + totalOffDiet`, for every session at any time. The query counts `in_dient = true` and `in_dient = false`, so a row whose flag is NULL counts in the total only. The identity therefore holds when no flag is NULL, which is true of every row these handlers write (`Store.NullFlagEscapesSplit` shows the other case).
- **Delete.** Delete is meant to remove the one row with the id. The code removes every row with that id, whichever session owns it. With unique ids this is at most one row.
- **Update without a cookie.** No behaviour is documented for this case. The code binds an undefined value in `where('session_id', '=', …)`, which the query builder refuses. The model replies with a query error and leaves the table unchanged.
- **Validation failures.** These are meant to be reported as a client error. The code throws from the schema parse, so the status comes from the application's error handler, which is not part of this model. A rejected body is modelled as `Rejected(error)` with no status, and no table is touched.

## Model

| member | source | states |
|---|---|---|
| `Body.MealSchema.FlagKey` | routes/meals.ts:67-71 | the create schema's flag key is `in_dient`, the update schema's is `inDient`; neither collides with `name` or `description` |
| `Body.ParseMeal` | routes/meals.ts:67-75 | a meal body is accepted exactly when it is an object whose `name` and `description` are strings and whose flag is a boolean; the fields are then the body's values; otherwise the error names exactly the offending keys, or says the body is not an object |
| `Body.ParseUser` | routes/user.ts:25-29 | a user body is accepted exactly when it is an object whose `name` is a string; otherwise it is refused naming `name`, or as not an object |
| `Body.MealRoundTrip` | routes/meals.ts:67-75 | a body built from fields under a schema parses back to those fields |
| `Body.UserRoundTrip` | routes/user.ts:25-29 | a body built from a name parses back to that name |
| `Body.ExtraKeysIgnored` | routes/meals.ts:67-75 | keys outside the schema never change the outcome of a meal parse |
| `Body.UpdateRefusesCreateBody` | routes/meals.ts:100-112 | a body shaped for POST is refused by PUT, naming only `inDient` |
| `Session.Resolve` | routes/meals.ts:77-86 | a present (truthy) cookie is kept and no cookie is set; a missing or empty one is replaced by the issued token, which is set as cookie `sessionId` with path `/` and the given max age; the resolved session always passes the session guard |
| `Session.ResolvedTokenIsReused` | routes/user.ts:31-40 | a resolved token presented on any later request is kept unchanged and no new cookie is set |
| `Store.Select` | routes/meals.ts:21 | a select returns exactly the rows that satisfy every where-clause, and never more rows than the table |
| `Store.SelectMultiset` | routes/meals.ts:37-40 | a select returns each matching row as often as the table holds it, and no other row |
| `Store.DeleteWhere` | routes/meals.ts:128 | a delete keeps exactly the rows that do not satisfy the where-chain; kept and selected rows add up to the table |
| `Store.DeletePartition` | routes/meals.ts:128 | the rows a delete keeps and the rows a select under the same chain returns partition the table, as multisets |
| `Store.UpdateWhere` | routes/meals.ts:114-119 | an update keeps the table's length, order, ids and sessions; matching rows take the new name, description and flag; every other row is unchanged |
| `Store.UsersOf` | routes/user.ts:19 | a users select returns exactly the rows of the given session, never more rows than the table; `Store.UsersOfMultiset` gives each row's multiplicity |
| `Store.UsersOfMultiset` | routes/user.ts:19 | a users select returns each row of the session exactly as often as the table holds it, and no other row |
| `Store.SelectAppend` | routes/meals.ts:88-94 | selecting after appending a row adds that row at the end exactly when it matches |
| `Store.UsersOfAppend` | routes/user.ts:42-46 | listing a session's users after appending a row adds it at the end exactly when it belongs to that session |
| `Store.InDietSplit` | routes/meals.ts:54-60 | the in-diet and off-diet counts never exceed the total, and add up to it when no selected flag is NULL |
| `Store.NullFlagEscapesSplit` | routes/meals.ts:56-58 | a row with a NULL flag counts in the total but in neither filtered count |
| `Store.SelectComposes` | routes/meals.ts:54-60 | a filtered count over the session's rows equals the count of the filter applied to the session's list |
| `Store.AtMostOneWithId` | routes/meals.ts:37-40 | with unique ids, a where-chain that fixes the id selects at most one row |
| `Store.UpdateKeepsSessionCount` | routes/meals.ts:114-119 | an update never changes how many rows any session owns |
| `Store.UpdateIsolated` | routes/meals.ts:114-119 | an update scoped to one session leaves every other session's rows exactly as they were, in the same order |
| `Store.UpdateNoMatch` | routes/meals.ts:114-121 | an update whose where-chain matches no row leaves the table unchanged |
| `Store.DeleteOwnedIsolated` | routes/meals.ts:124-130 | a delete filtered by id and session leaves every other session's rows exactly as they were |
| `Store.DeleteKeepsDistinct` | routes/meals.ts:128 | deleting keeps ids unique |
| `Store.Database.constructor` | routes/meals.ts:4 | the store handle (imported as `knex` here and at routes/user.ts:4) starts with two empty tables and satisfies the row invariant |
| `MealsRoutes.List` | routes/meals.ts:19-21 | GET `/` returns exactly the meals whose session equals the cookie's session |
| `MealsRoutes.Get` | routes/meals.ts:33-42 | GET `/:id` returns exactly the meals with both the cookie's session and that id; another session's meal yields nothing |
| `MealsRoutes.Metrics` | routes/meals.ts:52-62 | one aggregate row: the total is the size of the session's list; the in-diet and off-diet counts are the list's rows with the flag true and false; those counts never exceed the total and add up to it when no flag is NULL |
| `MealsRoutes.Create` | routes/meals.ts:66-97 | an invalid body is rejected with no table change; otherwise exactly one row is appended with the given fields, the given id and the resolved session, and the reply is 201 with the cookie the session resolution sets; users are unchanged and the row invariant is kept |
| `MealsRoutes.Update` | routes/meals.ts:99-122 | an invalid body is rejected with no table change; without a cookie the statement is refused with no change; otherwise the three fields are set on the rows matching the session and the id, and the reply is 204 whether or not a row matched; users are unchanged and the row invariant is kept |
| `MealsRoutes.Delete` | routes/meals.ts:124-131 | every row with that id is removed, whatever its session; rows with other ids stay; the reply is 204; users are unchanged and the row invariant is kept |
| `MealsRoutes.DeleteOwned` | routes/meals.ts:124-131 | the delete scoped by id and session: without a cookie it is refused with no change; otherwise it removes only the caller's rows with that id and replies 204 |
| `MealsRoutes.GetAtMostOne` | routes/meals.ts:37-40 | with unique ids, a lookup returns at most one meal |
| `MealsRoutes.DeleteRemovesAtMostOne` | routes/meals.ts:128 | with unique ids, a delete removes at most one row |
| `MealsRoutes.CreateShowsInOwnSession` | routes/meals.ts:88-94 | a created meal shows up at the end of its own session's list |
| `MealsRoutes.CreateBumpsMetrics` | routes/meals.ts:88-94 | a created meal adds one to its session's total and one to the count its flag selects |
| `MealsRoutes.CreateHiddenFromOthers` | routes/meals.ts:88-94 | a created meal changes neither the list nor the metrics of any other session |
| `MealsRoutes.UpdateLeavesOthers` | routes/meals.ts:114-119 | an update leaves every other session's list and metrics unchanged, and its own session's total unchanged |
| `MealsRoutes.UpdateOfUnownedIdIsNoOp` | routes/meals.ts:114-121 | an update naming an id the session does not own changes nothing |
| `MealsRoutes.DeleteCrossesSessions` | routes/meals.ts:125-128 | a delete by a session that does not own a meal still removes it from its owner's list |
| `MealsRoutes.DeleteOwnedLeavesOthers` | routes/meals.ts:124-130 | scoped by session, a delete leaves every other session's list unchanged |
| `UserRoutes.List` | routes/user.ts:17-21 | GET `/` returns exactly the users whose session equals the cookie's session, each as often as the table holds it |
| `UserRoutes.Create` | routes/user.ts:24-49 | an invalid body is rejected with no table change; otherwise exactly one user row is appended with the name, the given id and the resolved session, and the reply is 201 with the cookie the session resolution sets; the users table only grows and meals are unchanged |
| `UserRoutes.CreateShowsInOwnSessionOnly` | routes/user.ts:42-46 | a registered user shows up at the end of its own session's list and in no other session's list |
| `Scenarios.OneMealMetrics` | routes/meals.ts:66-97 | without a cookie, creating one in-diet meal issues a token; presenting that token, the metrics are 1 total, 1 in the diet, 0 off it |
| `Scenarios.TwoMealsMetrics` | routes/meals.ts:46-97 | one in-diet and one off-diet meal in the same session: the second reply sets no cookie and the metrics are 2, 1, 1 |
| `Scenarios.OneInOneOff` | routes/meals.ts:54-60 | the metrics over one in-diet row and one off-diet row of a session are 2, 1, 1 |
| `Scenarios.LookupAcrossSessions` | routes/meals.ts:27-44 | a meal created by session A is found by A's lookup and not by B's |
| `Scenarios.LookupOneRow` | routes/meals.ts:37-42 | in a table of one meal, its owner finds it by id and any other session finds nothing |
| `Scenarios.RegisterThenList` | routes/user.ts:11-49 | a name registered without a cookie is exactly what the user list returns for the issued token |

## Findings

| source | as written | input that shows it | evidently intended | confidence | as-written member | corrected member |
|---|---|---|---|---|---|---|
| routes/meals.ts:126-128 | the delete reads the session cookie but filters by `id` alone | meal `m1` owned by session `A`; `DELETE /m1` with cookie `B` empties `A`'s list | filter by `id` and by `session_id`, as the update does | high: the cookie is read and never used; not executed | `MealsRoutes.Delete`, `MealsRoutes.DeleteCrossesSessions` | `MealsRoutes.DeleteOwned`, `MealsRoutes.DeleteOwnedLeavesOthers` |

`MealsRoutes.Delete` models the code as written. `MealsRoutes.DeleteOwned` is the corrected handler.

## Left out

- The web framework, route registration and the precedence of `/metrics` over `/:id`: these are framework wiring.
- The request-logging preHandler hooks (routes/meals.ts:9-11, routes/user.ts:8-10): they only do I/O.
- The session guard middleware: its source is not part of this model. It appears only as the precondition `Present(cookie)` on the GET handlers, that is, the guard is assumed to turn away requests without a truthy cookie.
- The database connection module and query-builder behaviour beyond select, insert, update, delete and the undefined-binding refusal. Storage failures (a lost connection, a constraint violation) are not modelled.
- The schema library's internals: the error carries only the offending keys, not the library's messages or issue codes.
- The status code of a rejected body: it is set by the application's error handler, which is not part of this model.
- Random UUIDs: the new session token and row ids are parameters. The token is required to be non-empty and the row id not to be in use already; UUID uniqueness is assumed, not proved.
- Cookie serialisation and the unit of the cookie's max age: the model keeps the value `1000 * 60 * 60 * 24 * 7` as passed, without a unit.
- Concurrent requests: each request is modelled as atomic.
- The response wrappers `{ meals }`, `{ metrics }` and `{ user }`: the handlers return the rows themselves.
- Row order: SQL promises no order for a select; the model returns rows in table order, and every lemma that states an equality of selected sequences (such as `Store.SelectAppend`, `Store.SelectComposes`, `Store.UpdateIsolated`, `Store.DeleteOwnedIsolated`, `MealsRoutes.CreateShowsInOwnSession` and `UserRoutes.CreateShowsInOwnSessionOnly`) is about that order.
- Columns other than `id`, `session_id` and `in_dient` cannot appear in a where-clause, because no handler filters on them.
