/** Decoded JSON values as `json.load` hands them to Python, and the few Python
    built-ins the checker applies to them: truthiness, `str()`, `type().__name__`
    and `dict.get`. */
module Json {
  import opened Wrappers
  import opened Text

  /** A decoded value. `JObj` holds the items of the decoded `dict` in insertion
      order (its keys are distinct: duplicate keys were resolved by the decoder).
      Numbers are integers. */
  datatype Json =
    | JNull
    | JBool(b: bool)
    | JNum(n: int)
    | JStr(s: string)
    | JArr(items: seq<Json>)
    | JObj(fields: seq<(string, Json)>)

  /** Python's `bool(value)`. */
  predicate Truthy(j: Json)
  {
    match j
    case JNull => false
    case JBool(b) => b
    case JNum(n) => n != 0
    case JStr(s) => s != ""
    case JArr(items) => items != []
    case JObj(fields) => fields != []
  }

  /** `type(value).__name__`, as it appears in Python's error messages. */
  function TypeName(j: Json): string
  {
    match j
    case JNull => "NoneType"
    case JBool(_) => "bool"
    case JNum(_) => "int"
    case JStr(_) => "str"
    case JArr(_) => "list"
    case JObj(_) => "dict"
  }

  /** `d.get(key)` on a decoded `dict`. */
  function Get(fields: seq<(string, Json)>, key: string): (r: Option<Json>)
    ensures r.Some? <==> exists i :: 0 <= i < |fields| && fields[i].0 == key
    ensures r.Some? ==> exists i :: 0 <= i < |fields| && fields[i] == (key, r.value) && forall j :: 0 <= j < i ==> fields[j].0 != key
  {
    if fields == [] then None
    else if fields[0].0 == key then Some(fields[0].1)
    else
      var r := Get(fields[1..], key);
      assert forall i :: 1 <= i < |fields| ==> fields[i] == fields[1..][i - 1];
      if r.Some? then
        var i :| 0 <= i < |fields[1..]| && fields[1..][i] == (key, r.value) && forall j :: 0 <= j < i ==> fields[1..][j].0 != key;
        assert fields[i + 1] == (key, r.value);
        r
      else r
  }

  /** `d.get(key, default)`. */
  function GetOr(fields: seq<(string, Json)>, key: string, default: Json): Json
  {
    match Get(fields, key)
    case Some(v) => v
    case None => default
  }

  /** `str(value)` when `quoted` is false and `repr(value)` when it is true:
      strings nested in lists and dicts are shown by `repr`. */
  function Render(j: Json, quoted: bool): string
    decreases j
  {
    match j
    case JNull => "None"
    case JBool(b) => if b then "True" else "False"
    case JNum(n) => IntToString(n)
    case JStr(s) => if quoted then Repr(s) else s
    case JArr(items) =>
      "[" + Join(seq(|items|, i requires 0 <= i < |items| => Render(items[i], true)), ", ") + "]"
    case JObj(fields) =>
      "{" + Join(seq(|fields|, i requires 0 <= i < |fields| => Repr(fields[i].0) + ": " + Render(fields[i].1, true)), ", ") + "}"
  }

  /** Python's `str(value)`. */
  function Str(j: Json): string
  {
    Render(j, false)
  }
}
