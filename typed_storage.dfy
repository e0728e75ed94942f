/**
 * The value domain of the typed storage API (TypedStorage.ts): a JSON value
 * without `null` at the top level. Objects are ordered field lists whose names
 * are pairwise distinct, as in a JavaScript object.
 */
module TypedStorage {

  import opened Wrappers

  /** Any JSON value, `null` included. */
  datatype Json =
    | Null
    | Bool(b: bool)
    | Num(n: real)
    | Str(s: string)
    | Arr(items: seq<Json>)
    | Obj(fields: seq<Field>)

  /** One property of an object. */
  datatype Field = Field(name: string, value: Json)

  /** No two fields share a name. */
  predicate DistinctNames(fields: seq<Field>) {
    forall a, b | 0 <= a < b < |fields| :: fields[a].name != fields[b].name
  }

  /** Every object nested anywhere in `j` has distinct field names: what a JavaScript value always satisfies. */
  predicate WellFormed(j: Json) {
    match j
    case Arr(items) => forall a | 0 <= a < |items| :: WellFormed(items[a])
    case Obj(fields) =>
      DistinctNames(fields) && forall a | 0 <= a < |fields| :: WellFormed(fields[a].value)
    case _ => true
  }

  /**
   * `StoreValue`: boolean, number, string, an array of (StoreValue or null) or an
   * object of (StoreValue or null); `null` never at the top level.
   */
  type StoreValue = j: Json | !j.Null? && WellFormed(j) witness Bool(false)

  /** The value of the field called `name`, if there is one (a property read). */
  function FieldValue(fields: seq<Field>, name: string): (r: Option<Json>)
    ensures r.Some? <==> exists a :: 0 <= a < |fields| && fields[a].name == name
    ensures r.Some? ==> exists a :: 0 <= a < |fields| && fields[a] == Field(name, r.value)
  {
    if fields == [] then None
    else if fields[0].name == name then Some(fields[0].value)
    else
      var r := FieldValue(fields[1..], name);
      assert r.Some? ==> exists a :: 0 <= a < |fields| && fields[a] == Field(name, r.value) by {
        if r.Some? {
          var a :| 0 <= a < |fields[1..]| && fields[1..][a] == Field(name, r.value);
          assert fields[a + 1] == Field(name, r.value);
        }
      }
      assert (exists a :: 0 <= a < |fields| && fields[a].name == name) ==> r.Some? by {
        if exists a :: 0 <= a < |fields| && fields[a].name == name {
          var a :| 0 <= a < |fields| && fields[a].name == name;
          assert fields[1..][a - 1].name == name;
        }
      }
      r
  }

  /** The `{ value }` envelope every adapter stores instead of the bare value. */
  function Envelope(v: Json): (e: Json)
    ensures e.Obj? && FieldValue(e.fields, "value") == Some(v)
    ensures WellFormed(v) ==> WellFormed(e)
  {
    Obj([Field("value", v)])
  }
}
