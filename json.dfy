/** JSON values as Python's json module hands them to the pipeline, and the
    handful of Python operations on them that the pipeline performs:
    truthiness, `d[k]` with a string key, `d[k] = v` and `for x in v`. */
module Json {

  datatype Option<T> = None | Some(value: T)

  /** A parsed JSON value. Numbers are integers. An object keeps its keys in
      insertion order, as the Python dict built by json.load does; its keys
      are distinct there, and lookups below take the first match. */
  datatype Json =
    | JNull
    | JBool(b: bool)
    | JNum(n: int)
    | JString(s: string)
    | JArray(items: seq<Json>)
    | JObject(fields: seq<(string, Json)>)

  /** The Python exceptions the modelled lines can raise. */
  datatype Error =
    | KeyError(key: Json)   // dict subscript with a missing key
    | IndexError            // `[0]` on an empty sequence
    | TypeError             // subscript, assignment or iteration the value does not support
    | AttributeError        // `.lower()` on a value that is not a string
    | DecodeError           // json.load rejected the file
    | OSError               // a write into a directory that does not exist
    | ValueError            // a file name holding a NUL character

  datatype Result<T> = Ok(value: T) | Err(error: Error)

  /** Python's truth value: None, False, 0, "", [] and {} are false. */
  predicate Truthy(j: Json) {
    match j
    case JNull => false
    case JBool(b) => b
    case JNum(n) => n != 0
    case JString(s) => s != []
    case JArray(items) => items != []
    case JObject(fields) => fields != []
  }

  /** The keys of an object, in order. */
  function Keys(fields: seq<(string, Json)>): (ks: seq<string>)
    ensures |ks| == |fields|
  {
    if fields == [] then [] else [fields[0].0] + Keys(fields[1..])
  }

  /** The value stored under `k`, if any. */
  function Lookup(fields: seq<(string, Json)>, k: string): Option<Json> {
    if fields == [] then None
    else if fields[0].0 == k then Some(fields[0].1)
    else Lookup(fields[1..], k)
  }

  /** Python's `d[k] = v`: an existing key keeps its place and gets the new
      value; a new key goes at the end. */
  function SetKey(fields: seq<(string, Json)>, k: string, v: Json): seq<(string, Json)> {
    if fields == [] then [(k, v)]
    else if fields[0].0 == k then [(k, v)] + fields[1..]
    else [fields[0]] + SetKey(fields[1..], k, v)
  }

  /** Python's `j[k]` with a string key. */
  function GetKey(j: Json, k: string): (r: Result<Json>)
    ensures r.Ok? <==> j.JObject? && k in Keys(j.fields)
    ensures r.Err? ==> r.error == (if j.JObject? then KeyError(JString(k)) else TypeError)
  {
    match j
    case JObject(fields) =>
      LookupFound(fields, k);
      (match Lookup(fields, k)
       case Some(v) => Ok(v)
       case None => Err(KeyError(JString(k))))
    case _ => Err(TypeError)
  }

  /** The items Python's `for x in j` visits: a list's elements, a dict's
      keys, a string's one-character strings; other values are not iterable. */
  function Iterate(j: Json): (r: Result<seq<Json>>)
    ensures r.Ok? <==> j.JArray? || j.JObject? || j.JString?
    ensures j.JArray? ==> r == Ok(j.items)
    ensures j.JObject? ==> r.Ok? && |r.value| == |j.fields|
    ensures j.JObject? ==> forall i :: 0 <= i < |j.fields| ==> r.value[i] == JString(Keys(j.fields)[i])
    ensures j.JString? ==> r.Ok? && |r.value| == |j.s|
    ensures j.JString? ==> forall i :: 0 <= i < |j.s| ==> r.value[i] == JString([j.s[i]])
  {
    match j
    case JArray(items) => Ok(items)
    case JObject(fields) =>
      KeysAt(fields);
      Ok(seq(|fields|, i requires 0 <= i < |fields| => JString(fields[i].0)))
    case JString(s) => Ok(seq(|s|, i requires 0 <= i < |s| => JString([s[i]])))
    case _ => Err(TypeError)
  }

  /** Item `i` of the key list is the key of pair `i`. */
  lemma {:induction false} KeysAt(fields: seq<(string, Json)>)
    ensures forall i :: 0 <= i < |fields| ==> Keys(fields)[i] == fields[i].0
  {
    if fields != [] {
      KeysAt(fields[1..]);
      assert Keys(fields) == [fields[0].0] + Keys(fields[1..]);
    }
  }

  lemma {:induction false} LookupFound(fields: seq<(string, Json)>, k: string)
    ensures Lookup(fields, k).Some? <==> k in Keys(fields)
  {
    if fields != [] {
      LookupFound(fields[1..], k);
      assert Keys(fields) == [fields[0].0] + Keys(fields[1..]);
    }
  }

  /** After `d[k] = v`, `k` holds `v` and every other key holds what it held. */
  lemma {:induction false} SetKeyLookup(fields: seq<(string, Json)>, k: string, v: Json, k': string)
    ensures Lookup(SetKey(fields, k, v), k') == if k' == k then Some(v) else Lookup(fields, k')
  {
    if fields != [] && fields[0].0 != k {
      SetKeyLookup(fields[1..], k, v, k');
    }
  }

  /** `d[k] = v` keeps the key order, and appends `k` when it is new. */
  lemma {:induction false} SetKeyKeys(fields: seq<(string, Json)>, k: string, v: Json)
    ensures Keys(SetKey(fields, k, v)) == if k in Keys(fields) then Keys(fields) else Keys(fields) + [k]
  {
    if fields == [] {
    } else if fields[0].0 == k {
      assert Keys([(k, v)] + fields[1..]) == [k] + Keys(fields[1..]);
    } else {
      SetKeyKeys(fields[1..], k, v);
      var rest := SetKey(fields[1..], k, v);
      assert Keys([fields[0]] + rest) == [fields[0].0] + Keys(rest);
      assert Keys(fields) == [fields[0].0] + Keys(fields[1..]);
    }
  }
}
