/** The JavaScript values the model passes around: what `JSON.parse` can
    produce, with numbers restricted to integers.  `undefined` is not a value
    here; an argument or property that may be `undefined` is an `Option`. */
module JsValue {
  import opened Results

  datatype Json =
    | Null
    | Bool(b: bool)
    | Num(n: int)
    | Str(s: string)
    | Arr(items: seq<Json>)
    | Obj(fields: seq<(string, Json)>)

  /** JavaScript's `ToBoolean`, as an `if (v)` test applies it. */
  predicate Truthy(v: Json) {
    match v
    case Null => false
    case Bool(b) => b
    case Num(n) => n != 0
    case Str(s) => s != ""
    case Arr(_) => true
    case Obj(_) => true
  }

  /** The value of property `k` of an ordered object, as property access
      reads it: the first field with that key, or `undefined`. */
  function Get(fields: seq<(string, Json)>, k: string): (r: Option<Json>)
    ensures r.Some? <==> exists i :: 0 <= i < |fields| && fields[i].0 == k
    ensures r.Some? ==> exists i :: 0 <= i < |fields| && fields[i] == (k, r.value) && forall j :: 0 <= j < i ==> fields[j].0 != k
  {
    if fields == [] then None
    else if fields[0].0 == k then Some(fields[0].1)
    else
      var r := Get(fields[1..], k);
      assert forall i :: 0 < i < |fields| ==> fields[i] == fields[1..][i - 1];
      r
  }
}
