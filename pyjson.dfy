/**
 * Values as `json.loads` / `response.json()` hand them to the scripts: Python's
 * None, bool, int, str, list and dict, with the few operations the scripts
 * apply to them (`dict.get`, `in`, truthiness and `str()`).
 */
module PyJson {
  import opened Wrappers
  import opened PyText

  /**
   * A decoded JSON value. A dict is its list of fields in insertion order.
   * Nothing here forces its keys to be distinct: `json.loads` keeps the last
   * of repeated keys, so the dicts it produces have none, while `Get` on a
   * list with repeats answers with the first.
   */
  datatype Json =
    | JNull
    | JBool(b: bool)
    | JInt(i: int)
    | JStr(s: string)
    | JList(items: seq<Json>)
    | JObj(fields: seq<Field>)

  datatype Field = Field(key: string, value: Json)

  /** `d.get(k)`: the value stored under `k`, if any. */
  function Get(fields: seq<Field>, k: string): Option<Json> {
    if fields == [] then None
    else if fields[0].key == k then Some(fields[0].value)
    else Get(fields[1..], k)
  }

  /** The value found is that of the first field with the key; there is none exactly when no field has it. */
  lemma {:induction false} GetFirst(fields: seq<Field>, k: string)
    ensures Get(fields, k).None? <==> forall i :: 0 <= i < |fields| ==> fields[i].key != k
    ensures Get(fields, k).Some? ==>
              exists i :: 0 <= i < |fields| && fields[i] == Field(k, Get(fields, k).value) &&
                forall j :: 0 <= j < i ==> fields[j].key != k
  {
    if fields != [] && fields[0].key != k {
      GetFirst(fields[1..], k);
      if Get(fields, k).Some? {
        var i :| 0 <= i < |fields[1..]| && fields[1..][i] == Field(k, Get(fields, k).value) &&
                 forall j :: 0 <= j < i ==> fields[1..][j].key != k;
        assert fields[i + 1] == Field(k, Get(fields, k).value);
      }
    }
  }

  /** `k in d`. */
  predicate Has(fields: seq<Field>, k: string) {
    Get(fields, k).Some?
  }

  /** `d.get(k, default)`: the default is used only when the key is absent. */
  function GetOr(fields: seq<Field>, k: string, default: Json): Json {
    match Get(fields, k)
    case Some(v) => v
    case None => default
  }

  /** Python truthiness: None, False, 0, "", [] and {} are false. */
  predicate Truthy(v: Json) {
    match v
    case JNull => false
    case JBool(b) => b
    case JInt(i) => i != 0
    case JStr(s) => s != ""
    case JList(items) => items != []
    case JObj(fields) => fields != []
  }

  /** `repr(v)`, which `str()` gives for everything but a string. */
  function Repr(v: Json): (r: string)
    ensures r != []
    decreases v, 1
  {
    match v
    case JNull => "None"
    case JBool(b) => if b then "True" else "False"
    case JInt(i) => IntToString(i)
    case JStr(s) => "'" + s + "'"
    case JList(items) => "[" + ReprItems(items, v) + "]"
    case JObj(fields) => "{" + ReprFields(fields, v) + "}"
  }

  /** The comma-separated `repr` of each element of the list `v`. */
  function ReprItems(items: seq<Json>, ghost v: Json): string
    requires forall i :: 0 <= i < |items| ==> items[i] < v
    decreases v, 0, |items|
  {
    if items == [] then ""
    else if |items| == 1 then Repr(items[0])
    else Repr(items[0]) + ", " + ReprItems(items[1..], v)
  }

  /** The comma-separated `'key': repr(value)` of each field of the dict `v`. */
  function ReprFields(fields: seq<Field>, ghost v: Json): string
    requires forall i :: 0 <= i < |fields| ==> fields[i].value < v
    decreases v, 0, |fields|
  {
    if fields == [] then ""
    else
      var head := "'" + fields[0].key + "': " + Repr(fields[0].value);
      if |fields| == 1 then head else head + ", " + ReprFields(fields[1..], v)
  }

  /** `str(v)`: a string is itself, anything else its `repr`. */
  function PyStr(v: Json): (r: string)
    ensures v.JStr? ==> r == v.s
    ensures !v.JStr? ==> r != []
  {
    if v.JStr? then v.s else Repr(v)
  }

  /** A truthy value has a non-empty `str()`; a falsy string is the empty one. */
  lemma TruthyStr(v: Json)
    ensures Truthy(v) ==> PyStr(v) != ""
    ensures v.JStr? ==> (Truthy(v) <==> PyStr(v) != "")
  {
  }
}
