/** JSON values as the core reads them. An object is an association list in
    key order (the order `Object.keys` and `Object.entries` walk); lookups
    read the first binding of a key. Numbers are kept as integers: the rules
    modelled here only test whether a value is a number. */
module Json {
  import opened Wrappers

  datatype Json =
    | JNull
    | JBool(b: bool)
    | JNum(n: int)
    | JStr(s: string)
    | JArr(items: seq<Json>)
    | JObj(fields: seq<(string, Json)>)

  /** The value bound to `key`, or `None` (`undefined`) when there is none. */
  function Lookup(fields: seq<(string, Json)>, key: string): (r: Option<Json>)
    ensures r.None? <==> forall i :: 0 <= i < |fields| ==> fields[i].0 != key
    ensures r.Some? ==> exists i :: 0 <= i < |fields| && fields[i] == (key, r.value)
  {
    if fields == [] then None
    else if fields[0].0 == key then Some(fields[0].1)
    else Lookup(fields[1..], key)
  }

  /** `obj[key]` for any value: only objects have properties. */
  function Field(j: Json, key: string): Option<Json> {
    if j.JObj? then Lookup(j.fields, key) else None
  }

  /** `delete o[key]`: every binding of `key` goes. */
  function Delete(fields: seq<(string, Json)>, key: string): (r: seq<(string, Json)>)
    ensures forall i :: 0 <= i < |r| ==> r[i].0 != key
    ensures forall i :: 0 <= i < |r| ==> r[i] in fields
    ensures forall i :: 0 <= i < |fields| && fields[i].0 != key ==> fields[i] in r
    ensures |r| <= |fields|
  {
    if fields == [] then []
    else if fields[0].0 == key then Delete(fields[1..], key)
    else [fields[0]] + Delete(fields[1..], key)
  }

  /** JavaScript truthiness of a defined value. */
  predicate Truthy(j: Json) {
    match j
    case JNull => false
    case JBool(b) => b
    case JNum(n) => n != 0
    case JStr(s) => s != ""
    case _ => true
  }

  /** Truthiness of a possibly `undefined` value. */
  predicate TruthyOpt(j: Option<Json>) {
    j.Some? && Truthy(j.value)
  }

  function Keys(fields: seq<(string, Json)>): (ks: seq<string>)
    ensures |ks| == |fields|
    ensures forall i :: 0 <= i < |fields| ==> ks[i] == fields[i].0
  {
    seq(|fields|, i requires 0 <= i < |fields| => fields[i].0)
  }
}
