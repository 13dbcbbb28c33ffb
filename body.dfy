/**
 * Request bodies and the schema checks the handlers run on them.
 *
 * A body is whatever JSON value the client sent. Each handler parses it
 * against an object schema of string and boolean fields; a parse either
 * yields the typed fields or a validation error naming every schema key
 * whose value is missing or of the wrong type. Keys outside the schema
 * are ignored (the schema strips them).
 */
module Body {
  import opened Common

  datatype Json =
    | JNull
    | JBool(b: bool)
    | JNum(n: int)
    | JStr(s: string)
    | JArr(items: seq<Json>)
    | JObj(fields: map<string, Json>)

  /** Why a body was refused: it is not an object, or these schema keys are invalid. */
  datatype ValidationError = NotAnObject | InvalidFields(keys: seq<string>)

  /** The three meal fields a create or update writes. */
  datatype MealFields = MealFields(name: string, description: string, inDiet: bool)

  /** The create schema names the flag `in_dient`, the update schema `inDient`. */
  datatype MealSchema = CreateMealSchema | UpdateMealSchema {
    function FlagKey(): (k: string)
      ensures k != "name" && k != "description"
    {
      match this
      case CreateMealSchema => "in_dient"
      case UpdateMealSchema => "inDient"
    }
  }

  predicate IsText(o: map<string, Json>, key: string) {
    key in o && o[key].JStr?
  }

  predicate IsFlag(o: map<string, Json>, key: string) {
    key in o && o[key].JBool?
  }

  /** Parses a meal body: `name` and `description` strings, the schema's flag a boolean. */
  function ParseMeal(body: Json, schema: MealSchema): (r: Result<MealFields, ValidationError>)
    ensures r.Success? <==>
      body.JObj? && IsText(body.fields, "name") && IsText(body.fields, "description")
      && IsFlag(body.fields, schema.FlagKey())
    ensures r.Success? ==>
      r.value == MealFields(body.fields["name"].s, body.fields["description"].s,
                            body.fields[schema.FlagKey()].b)
    ensures !body.JObj? ==> r == Failure(NotAnObject)
    ensures body.JObj? && r.Failure? ==>
      r.error.InvalidFields? && |r.error.keys| > 0 &&
      forall k :: k in r.error.keys <==>
        (k == "name" && !IsText(body.fields, k)) ||
        (k == "description" && !IsText(body.fields, k)) ||
        (k == schema.FlagKey() && !IsFlag(body.fields, k))
  {
    if !body.JObj? then Failure(NotAnObject)
    else
      var o := body.fields;
      var flag := schema.FlagKey();
      var bad := (if IsText(o, "name") then [] else ["name"])
        + (if IsText(o, "description") then [] else ["description"])
        + (if IsFlag(o, flag) then [] else [flag]);
      if bad == [] then Success(MealFields(o["name"].s, o["description"].s, o[flag].b))
      else Failure(InvalidFields(bad))
  }

  /** Parses a user body: a `name` string. */
  function ParseUser(body: Json): (r: Result<string, ValidationError>)
    ensures r.Success? <==> body.JObj? && IsText(body.fields, "name")
    ensures r.Success? ==> r.value == body.fields["name"].s
    ensures !body.JObj? ==> r == Failure(NotAnObject)
    ensures body.JObj? && r.Failure? ==> r == Failure(InvalidFields(["name"]))
  {
    if !body.JObj? then Failure(NotAnObject)
    else if IsText(body.fields, "name") then Success(body.fields["name"].s)
    else Failure(InvalidFields(["name"]))
  }

  /** The body a client sends to create or update a meal under the given schema. */
  function EncodeMeal(f: MealFields, schema: MealSchema): Json {
    JObj(map["name" := JStr(f.name), "description" := JStr(f.description),
             schema.FlagKey() := JBool(f.inDiet)])
  }

  function EncodeUser(name: string): Json {
    JObj(map["name" := JStr(name)])
  }

  lemma MealRoundTrip(f: MealFields, schema: MealSchema)
    ensures ParseMeal(EncodeMeal(f, schema), schema) == Success(f)
  {
  }

  lemma UserRoundTrip(name: string)
    ensures ParseUser(EncodeUser(name)) == Success(name)
  {
  }

  /** Keys outside the schema never change the outcome of a parse. */
  lemma ExtraKeysIgnored(o: map<string, Json>, extra: map<string, Json>, schema: MealSchema)
    requires forall k :: k in extra ==> k != "name" && k != "description" && k != schema.FlagKey()
    ensures ParseMeal(JObj(o + extra), schema) == ParseMeal(JObj(o), schema)
  {
  }

  /** A body shaped for the create route is refused by the update route: only its flag key differs. */
  lemma UpdateRefusesCreateBody(f: MealFields)
    ensures ParseMeal(EncodeMeal(f, CreateMealSchema), UpdateMealSchema)
         == Failure(InvalidFields(["inDient"]))
  {
    var o := EncodeMeal(f, CreateMealSchema).fields;
    assert IsText(o, "name") && IsText(o, "description");
    assert "inDient" !in o;
    var none: seq<string> := [];
    assert none + none + ["inDient"] == ["inDient"];
  }
}
