/**
 * JSON values as `json.loads` produces them, and the few Python operations
 * on them that the crawler and the translator use: `d[key]`, `key in d`,
 * truthiness, and iteration (`for x in v`, `list.extend(v)`).
 */
module Json {
  import opened Wrappers

  /** A JSON value. Objects are ordered key/value lists, as Python dicts keep insertion order. */
  datatype Json =
    | JNull
    | JBool(b: bool)
    | JNum(n: int)
    | JStr(s: string)
    | JArr(items: seq<Json>)
    | JObj(fields: seq<(string, Json)>)

  /**
   * A JSON object (a Python dict), as its ordered list of entries. A dict
   * never holds a key twice (`DistinctKeys`); on a list that does, `Lookup`
   * takes the first entry, where `json.loads` would keep the last.
   */
  type Obj = seq<(string, Json)>

  /** The exceptions the modelled code can raise. */
  datatype PyError =
    | KeyError(key: string)   // `d[key]` with `key` absent
    | TypeError               // subscripting or iterating a value of the wrong type
    | AttributeError          // calling a str/list method on a value of another type
    | IndexError              // `segments[-2]` of a one-element list

  /** The keys of an object, in insertion order. */
  function Keys(o: Obj): seq<string> {
    seq(|o|, i requires 0 <= i < |o| => o[i].0)
  }

  /** No key occurs twice, as in every Python dict. */
  predicate DistinctKeys(o: Obj) {
    forall i, j :: 0 <= i < j < |o| ==> o[i].0 != o[j].0
  }

  /** The value stored under `key` (the first entry with that key). */
  function Lookup(o: Obj, key: string): (r: Option<Json>)
    ensures r.Some? <==> key in Keys(o)
    ensures r.Some? ==> (key, r.value) in o
  {
    if o == [] then None
    else
      assert Keys(o) == [o[0].0] + Keys(o[1..]);
      if o[0].0 == key then Some(o[0].1) else Lookup(o[1..], key)
  }

  /** `o[key]` on a dict. */
  function Get(o: Obj, key: string): (r: Result<Json, PyError>)
    ensures r.Ok? <==> key in Keys(o)
    ensures r.Err? ==> r.error == KeyError(key)
    ensures r.Ok? ==> (key, r.value) in o
  {
    match Lookup(o, key)
    case Some(v) => Ok(v)
    case None => Err(KeyError(key))
  }

  /** `v[key]` with a string key, on a value of any type. */
  function Subscript(v: Json, key: string): (r: Result<Json, PyError>)
    ensures r.Ok? <==> v.JObj? && key in Keys(v.fields)
    ensures v.JObj? ==> r == Get(v.fields, key)
    ensures !v.JObj? ==> r == Err(TypeError)
  {
    if v.JObj? then Get(v.fields, key) else Err(TypeError)
  }

  /** Python truthiness of a JSON value. */
  predicate Truthy(v: Json) {
    match v
    case JNull => false
    case JBool(b) => b
    case JNum(n) => n != 0
    case JStr(s) => s != ""
    case JArr(items) => items != []
    case JObj(fields) => fields != []
  }

  /**
   * The elements that `for x in v` visits: a list's items, a string's
   * one-character strings, a dict's keys; None, booleans and numbers are
   * not iterable.
   */
  function Iterate(v: Json): (r: Result<seq<Json>, PyError>)
    ensures v.JArr? ==> r == Ok(v.items)
    ensures r.Err? <==> v.JNull? || v.JBool? || v.JNum?
    ensures r.Ok? && v.JStr? ==> |r.value| == |v.s| && forall i :: 0 <= i < |v.s| ==> r.value[i] == JStr([v.s[i]])
    ensures r.Ok? && v.JObj? ==> |r.value| == |v.fields| && forall i :: 0 <= i < |v.fields| ==> r.value[i] == JStr(v.fields[i].0)
  {
    match v
    case JArr(items) => Ok(items)
    case JStr(s) => Ok(seq(|s|, i requires 0 <= i < |s| => JStr([s[i]])))
    case JObj(fields) => Ok(seq(|fields|, i requires 0 <= i < |fields| => JStr(fields[i].0)))
    case _ => Err(TypeError)
  }

  /**
   * `o[key] = v`: an existing key keeps its place and takes the value `v`;
   * an absent key is appended at the end.
   */
  function Assign(o: Obj, key: string, v: Json): (r: Obj)
    ensures Keys(r) == if key in Keys(o) then Keys(o) else Keys(o) + [key]
    ensures Lookup(r, key) == Some(v)
    ensures forall k :: k != key ==> Lookup(r, k) == Lookup(o, k)
  {
    assert o != [] ==> Keys(o) == [o[0].0] + Keys(o[1..]);
    if o == [] then [(key, v)]
    else if o[0].0 == key then
      var r := [(key, v)] + o[1..];
      assert r[1..] == o[1..];
      assert Keys(r) == Keys(o);
      r
    else
      var rest := Assign(o[1..], key, v);
      var r := [o[0]] + rest;
      assert r[1..] == rest;
      assert Keys(r) == [o[0].0] + Keys(rest);
      r
  }
}
