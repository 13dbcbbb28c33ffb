/**
 * The record store: the `meals` and `users` tables as sequences of rows, the
 * where-clause chains the handlers build (a conjunction of column equalities),
 * and the select, delete and update statements those chains drive.
 */
module Store {
  import opened Common
  import opened Body

  /** A row of `meals`. The `in_dient` column may hold NULL, which no equality matches. */
  datatype Meal = Meal(id: string, name: string, description: string, inDiet: Option<bool>, sessionId: string)

  /** A row of `users`. */
  datatype User = User(id: string, name: string, sessionId: string)

  /** The columns of `meals` that a where-clause can test. */
  datatype Column = IdColumn | SessionColumn | InDietColumn

  datatype Value = Text(text: string) | Flag(flag: bool)

  /** `where(column, '=', value)`. */
  datatype Clause = Eq(column: Column, value: Value)

  function Cell(m: Meal, c: Column): Option<Value> {
    match c
    case IdColumn => Some(Text(m.id))
    case SessionColumn => Some(Text(m.sessionId))
    case InDietColumn => if m.inDiet.Some? then Some(Flag(m.inDiet.value)) else None
  }

  /** A row satisfies a chain of where-clauses when it satisfies every clause. */
  predicate Matches(m: Meal, w: seq<Clause>) {
    forall c :: c in w ==> Cell(m, c.column) == Some(c.value)
  }

  function BySession(session: string): Clause { Eq(SessionColumn, Text(session)) }
  function ById(id: string): Clause { Eq(IdColumn, Text(id)) }
  function ByInDiet(b: bool): Clause { Eq(InDietColumn, Flag(b)) }

  /** `select()` under a where-chain: the matching rows, in table order, each as often as in the table. */
  function Select(t: seq<Meal>, w: seq<Clause>): (r: seq<Meal>)
    ensures forall m :: m in r <==> m in t && Matches(m, w)
    ensures |r| <= |t|
  {
    if t == [] then []
    else
      assert t == [t[0]] + t[1..];
      (if Matches(t[0], w) then [t[0]] else []) + Select(t[1..], w)
  }

  /** `del()` under a where-chain: the table keeps exactly the rows a select would not return. */
  function DeleteWhere(t: seq<Meal>, w: seq<Clause>): (r: seq<Meal>)
    ensures forall m :: m in r <==> m in t && !Matches(m, w)
    ensures |r| + |Select(t, w)| == |t|
  {
    if t == [] then []
    else
      assert t == [t[0]] + t[1..];
      (if Matches(t[0], w) then [] else [t[0]]) + DeleteWhere(t[1..], w)
  }

  /** A row after `update({ name }).update({ description }).update({ in_dient })`. */
  function Patched(m: Meal, f: MealFields): Meal {
    m.(name := f.name, description := f.description, inDiet := Some(f.inDiet))
  }

  /**
   * `update(...)` under a where-chain: the table keeps its length and order,
   * matching rows take the three new fields, every other row is unchanged.
   */
  function UpdateWhere(t: seq<Meal>, w: seq<Clause>, f: MealFields): (r: seq<Meal>)
    ensures |r| == |t|
    ensures forall i :: 0 <= i < |t| ==>
      r[i].id == t[i].id && r[i].sessionId == t[i].sessionId &&
      (Matches(t[i], w) ==> r[i].name == f.name && r[i].description == f.description && r[i].inDiet == Some(f.inDiet)) &&
      (!Matches(t[i], w) ==> r[i] == t[i])
  {
    if t == [] then []
    else [if Matches(t[0], w) then Patched(t[0], f) else t[0]] + UpdateWhere(t[1..], w, f)
  }

  /** `select()` of the users of one session, in table order. */
  function UsersOf(t: seq<User>, session: string): (r: seq<User>)
    ensures forall u :: u in r <==> u in t && u.sessionId == session
    ensures |r| <= |t|
  {
    if t == [] then []
    else
      assert t == [t[0]] + t[1..];
      (if t[0].sessionId == session then [t[0]] else []) + UsersOf(t[1..], session)
  }

  /** Every `in_dient` holds a boolean: true of every row the handlers write. */
  predicate AllFlagged(t: seq<Meal>) {
    forall m :: m in t ==> m.inDiet.Some?
  }

  predicate DistinctMealIds(t: seq<Meal>) {
    forall i, j :: 0 <= i < j < |t| ==> t[i].id != t[j].id
  }

  predicate DistinctUserIds(t: seq<User>) {
    forall i, j :: 0 <= i < j < |t| ==> t[i].id != t[j].id
  }

  predicate HasMealId(t: seq<Meal>, id: string) {
    exists m :: m in t && m.id == id
  }

  predicate HasUserId(t: seq<User>, id: string) {
    exists u :: u in t && u.id == id
  }

  /** A select returns each matching row exactly as often as the table holds it, and no other row. */
  lemma {:induction false} SelectMultiset(t: seq<Meal>, w: seq<Clause>)
    ensures forall m :: multiset(Select(t, w))[m] == if Matches(m, w) then multiset(t)[m] else 0
  {
    if t != [] {
      assert t == [t[0]] + t[1..];
      SelectMultiset(t[1..], w);
    }
  }

  /** A users select returns each row of the session exactly as often as the table holds it, and no other row. */
  lemma {:induction false} UsersOfMultiset(t: seq<User>, session: string)
    ensures forall u :: multiset(UsersOf(t, session))[u] == if u.sessionId == session then multiset(t)[u] else 0
  {
    if t != [] {
      assert t == [t[0]] + t[1..];
      UsersOfMultiset(t[1..], session);
    }
  }

  /** A delete and a select under the same where-chain partition the table's rows. */
  lemma {:induction false} DeletePartition(t: seq<Meal>, w: seq<Clause>)
    ensures multiset(DeleteWhere(t, w)) + multiset(Select(t, w)) == multiset(t)
  {
    if t != [] {
      assert t == [t[0]] + t[1..];
      DeletePartition(t[1..], w);
    }
  }

  /** Selecting from a table with one more row adds that row at the end when it matches. */
  lemma {:induction false} SelectAppend(t: seq<Meal>, m: Meal, w: seq<Clause>)
    ensures Select(t + [m], w) == Select(t, w) + (if Matches(m, w) then [m] else [])
  {
    if t == [] {
      assert t + [m] == [m];
    } else {
      var head := if Matches(t[0], w) then [t[0]] else [];
      var tail := if Matches(m, w) then [m] else [];
      assert (t + [m])[0] == t[0];
      assert (t + [m])[1..] == t[1..] + [m];
      SelectAppend(t[1..], m, w);
      calc {
        Select(t + [m], w);
        head + Select(t[1..] + [m], w);
        head + (Select(t[1..], w) + tail);
        (head + Select(t[1..], w)) + tail;
        Select(t, w) + tail;
      }
    }
  }

  /**
   * Splitting a select on `in_dient = true` and `in_dient = false` never
   * yields more rows than the select itself, and exactly as many when every
   * selected row has a non-NULL `in_dient`.
   */
  lemma {:induction false} InDietSplit(t: seq<Meal>, w: seq<Clause>)
    ensures |Select(t, w + [ByInDiet(true)])| + |Select(t, w + [ByInDiet(false)])| <= |Select(t, w)|
    ensures (forall m :: m in t && Matches(m, w) ==> m.inDiet.Some?) ==>
      |Select(t, w)| == |Select(t, w + [ByInDiet(true)])| + |Select(t, w + [ByInDiet(false)])|
  {
    if t != [] {
      assert forall c :: c in w + [ByInDiet(true)] <==> c in w || c == ByInDiet(true);
      assert forall c :: c in w + [ByInDiet(false)] <==> c in w || c == ByInDiet(false);
      InDietSplit(t[1..], w);
    }
  }

  /** Chaining two selects is one select under both where-chains. */
  lemma {:induction false} SelectComposes(t: seq<Meal>, v: seq<Clause>, u: seq<Clause>)
    ensures Select(Select(t, v), u) == Select(t, v + u)
  {
    if t != [] {
      assert forall c :: c in v + u <==> c in v || c in u;
      SelectComposes(t[1..], v, u);
      var s := Select(t, v);
      assert Matches(t[0], v + u) == (Matches(t[0], v) && Matches(t[0], u));
      if Matches(t[0], v) {
        assert s[0] == t[0] && s[1..] == Select(t[1..], v);
        assert Select(s, u) == (if Matches(t[0], u) then [t[0]] else []) + Select(s[1..], u);
      } else {
        assert s == Select(t[1..], v);
      }
    }
  }

  /** Appending a row whose id is new keeps ids distinct. */
  lemma AppendKeepsDistinct(t: seq<Meal>, m: Meal)
    requires DistinctMealIds(t) && !HasMealId(t, m.id)
    ensures DistinctMealIds(t + [m])
  {
  }

  /** Listing a session's users after one more row adds that row at the end when it belongs to the session. */
  lemma {:induction false} UsersOfAppend(t: seq<User>, u: User, session: string)
    ensures UsersOf(t + [u], session) == UsersOf(t, session) + (if u.sessionId == session then [u] else [])
  {
    if t == [] {
      assert t + [u] == [u];
    } else {
      var head := if t[0].sessionId == session then [t[0]] else [];
      var tail := if u.sessionId == session then [u] else [];
      assert (t + [u])[0] == t[0];
      assert (t + [u])[1..] == t[1..] + [u];
      UsersOfAppend(t[1..], u, session);
      calc {
        UsersOf(t + [u], session);
        head + UsersOf(t[1..] + [u], session);
        head + (UsersOf(t[1..], session) + tail);
        (head + UsersOf(t[1..], session)) + tail;
        UsersOf(t, session) + tail;
      }
    }
  }

  /** Appending a user whose id is new keeps user ids distinct. */
  lemma AppendKeepsDistinctUsers(t: seq<User>, u: User)
    requires DistinctUserIds(t) && !HasUserId(t, u.id)
    ensures DistinctUserIds(t + [u])
  {
  }

  /** An update keeps every `in_dient` non-NULL and every id where it was. */
  lemma UpdateKeepsShape(t: seq<Meal>, w: seq<Clause>, f: MealFields)
    requires AllFlagged(t) && DistinctMealIds(t)
    ensures AllFlagged(UpdateWhere(t, w, f)) && DistinctMealIds(UpdateWhere(t, w, f))
  {
  }

  /** Without that guarantee the split fails: a NULL `in_dient` is counted in neither part. */
  lemma NullFlagEscapesSplit()
    ensures var t := [Meal("m", "n", "d", None, "s")];
      |Select(t, [BySession("s")])| == 1 &&
      |Select(t, [BySession("s"), ByInDiet(true)])| + |Select(t, [BySession("s"), ByInDiet(false)])| == 0
  {
  }

  /** A select over rows none of which matches returns nothing. */
  lemma {:induction false} SelectNone(t: seq<Meal>, w: seq<Clause>)
    requires forall m :: m in t ==> !Matches(m, w)
    ensures Select(t, w) == []
  {
    if t != [] {
      SelectNone(t[1..], w);
    }
  }

  /** With distinct ids, a where-chain that fixes the id selects at most one row. */
  lemma {:induction false} AtMostOneWithId(t: seq<Meal>, w: seq<Clause>, id: string)
    requires DistinctMealIds(t)
    requires ById(id) in w
    ensures |Select(t, w)| <= 1
  {
    if t != [] {
      if Matches(t[0], w) {
        forall m | m in t[1..]
          ensures !Matches(m, w)
        {
          var k :| 0 <= k < |t[1..]| && t[1..][k] == m;
          assert t[k + 1].id != t[0].id;
        }
        SelectNone(t[1..], w);
      } else {
        AtMostOneWithId(t[1..], w, id);
      }
    }
  }

  /** Deleting keeps ids distinct: what is left is a subsequence. */
  lemma {:induction false} DeleteKeepsDistinct(t: seq<Meal>, w: seq<Clause>)
    requires DistinctMealIds(t)
    ensures DistinctMealIds(DeleteWhere(t, w))
  {
    if t != [] {
      DeleteKeepsDistinct(t[1..], w);
      var rest := DeleteWhere(t[1..], w);
      forall m | m in rest
        ensures m.id != t[0].id
      {
        var k :| 0 <= k < |t[1..]| && t[1..][k] == m;
        assert t[k + 1] == m;
      }
    }
  }

  /** An update never changes how many rows a session owns. */
  lemma {:induction false} UpdateKeepsSessionCount(t: seq<Meal>, w: seq<Clause>, f: MealFields, session: string)
    ensures |Select(UpdateWhere(t, w, f), [BySession(session)])| == |Select(t, [BySession(session)])|
  {
    if t != [] {
      UpdateKeepsSessionCount(t[1..], w, f, session);
      var r := UpdateWhere(t, w, f);
      assert r[1..] == UpdateWhere(t[1..], w, f);
      assert Matches(r[0], [BySession(session)]) == Matches(t[0], [BySession(session)]);
    }
  }

  /**
   * An update that names a session leaves the view of every other session
   * exactly as it was: same rows, same order.
   */
  lemma {:induction false} UpdateIsolated(t: seq<Meal>, session: string, id: string, f: MealFields, other: string)
    requires other != session
    ensures Select(UpdateWhere(t, [BySession(session), ById(id)], f), [BySession(other)])
         == Select(t, [BySession(other)])
  {
    var w := [BySession(session), ById(id)];
    if t != [] {
      UpdateIsolated(t[1..], session, id, f, other);
      var r := UpdateWhere(t, w, f);
      assert r[1..] == UpdateWhere(t[1..], w, f);
      if Matches(t[0], w) {
        assert !Matches(r[0], [BySession(other)]) && !Matches(t[0], [BySession(other)]);
      }
    }
  }

  /** An update whose where-chain matches no row leaves the table as it was. */
  lemma UpdateNoMatch(t: seq<Meal>, w: seq<Clause>, f: MealFields)
    requires forall m :: m in t ==> !Matches(m, w)
    ensures UpdateWhere(t, w, f) == t
  {
  }

  /**
   * A delete that names a session as well as an id leaves the view of every
   * other session exactly as it was.
   */
  lemma {:induction false} DeleteOwnedIsolated(t: seq<Meal>, session: string, id: string, other: string)
    requires other != session
    ensures Select(DeleteWhere(t, [ById(id), BySession(session)]), [BySession(other)])
         == Select(t, [BySession(other)])
  {
    var w := [ById(id), BySession(session)];
    var v := [BySession(other)];
    if t != [] {
      DeleteOwnedIsolated(t[1..], session, id, other);
      var rest := DeleteWhere(t[1..], w);
      assert Select(t, v) == (if Matches(t[0], v) then [t[0]] else []) + Select(t[1..], v);
      if Matches(t[0], w) {
        assert BySession(session) in w;
        assert !Matches(t[0], v);
        assert DeleteWhere(t, w) == rest;
      } else {
        var d := [t[0]] + rest;
        assert DeleteWhere(t, w) == d;
        assert d[0] == t[0] && d[1..] == rest;
        assert Select(d, v) == (if Matches(t[0], v) then [t[0]] else []) + Select(rest, v);
      }
    }
  }

  /**
   * The store handle the handlers run against. Its fields are the two tables,
   * which the mutating handlers reassign.
   */
  class Database {
    var meals: seq<Meal>
    var users: seq<User>

    /** The shape of every row the handlers write: a boolean flag and a unique id. */
    ghost predicate Valid()
      reads this
    {
      AllFlagged(meals) && DistinctMealIds(meals) && DistinctUserIds(users)
    }

    constructor ()
      ensures meals == [] && users == []
      ensures Valid()
    {
      meals := [];
      users := [];
    }
  }
}
