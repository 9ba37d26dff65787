/**
 * get_from_nested_key: following a path of keys through nested JSON objects,
 * where a missing key and a null value both end the walk, which then either
 * returns a default or raises KeyError.
 */
module JsonHelper {
  import opened Outcome

  /** A parsed JSON value; `null` doubles as Python's `None`. */
  datatype Json =
    | JNull
    | JBool(b: bool)
    | JNumber(n: int)
    | JString(s: string)
    | JArray(items: seq<Json>)
    | JObject(fields: map<string, Json>)

  /** `value.get(key)` on a dict: the value under `key`, or `None` when it is absent. */
  function Get(fields: map<string, Json>, key: string): Json
  {
    if key in fields then fields[key] else JNull
  }

  /** Where a walk along a path of keys stops. */
  datatype Stop =
    | Reached(value: Json)   // every key was present with a non-null value
    | Missing(key: string)   // this key was absent or held null
    | NotAnObject            // `.get` was called on something that is not a dict

  /** The walk down `keys` from `value`, one key at a time. */
  function Descend(value: Json, keys: seq<string>): Stop
    decreases |keys|
  {
    if keys == [] then Reached(value)
    else if !value.JObject? then NotAnObject
    else
      var next := Get(value.fields, keys[0]);
      if next.JNull? then Missing(keys[0]) else Descend(next, keys[1..])
  }

  /** What get_from_nested_key returns or raises. */
  function NestedGet(data: Json, keys: seq<string>, throwKeyError: bool, default: Json): Result<Json>
  {
    match Descend(data, keys)
    case Reached(v) => Success(v)
    case NotAnObject => Failure(AttributeError("get"))
    case Missing(key) => if throwKeyError then Failure(KeyError(key)) else Success(default)
  }

  /** get_from_nested_key over already-parsed data; `default` is JNull for `None`. */
  method GetFromNestedKey(data: Json, keys: seq<string>, throwKeyError: bool, default: Json)
    returns (r: Result<Json>)
    ensures r == NestedGet(data, keys, throwKeyError, default)
  {
    if |keys| == 0 {
      return Success(data);
    }
    var value := data;
    for i := 0 to |keys|
      invariant Descend(data, keys) == Descend(value, keys[i..])
    {
      var key := keys[i];
      assert keys[i..][0] == key && keys[i..][1..] == keys[i + 1..];
      if !value.JObject? {
        return Failure(AttributeError("get"));
      }
      value := Get(value.fields, key);
      if value.JNull? {
        if throwKeyError {
          return Failure(KeyError(key));
        }
        return Success(default);
      }
    }
    assert keys[|keys|..] == [];
    return Success(value);
  }

  /** An empty path returns the data itself, whatever it is. */
  lemma NestedGetEmpty(data: Json, throwKeyError: bool, default: Json)
    ensures NestedGet(data, [], throwKeyError, default) == Success(data)
  {
  }

  /** Walking `p + q` is walking `p`, then walking `q` from where `p` arrived. */
  lemma {:induction false} DescendAppend(value: Json, p: seq<string>, q: seq<string>)
    ensures Descend(value, p + q)
         == (match Descend(value, p)
             case Reached(w) => Descend(w, q)
             case other => other)
    decreases |p|
  {
    if p == [] {
      assert p + q == q;
    } else {
      assert (p + q)[0] == p[0] && (p + q)[1..] == p[1..] + q;
      if value.JObject? && !Get(value.fields, p[0]).JNull? {
        DescendAppend(Get(value.fields, p[0]), p[1..], q);
      }
    }
  }

  /** Once the walk stops short, keys after the stopping point are never looked at. */
  lemma LaterKeysIgnored(value: Json, keys: seq<string>, extra: seq<string>)
    requires !Descend(value, keys).Reached?
    ensures Descend(value, keys + extra) == Descend(value, keys)
  {
    DescendAppend(value, keys, extra);
  }

  /**
   * The key a KeyError names is the first one on the path that is missing
   * or null: every key before it was present and non-null.
   */
  lemma {:induction false} MissingIsFirst(value: Json, keys: seq<string>, key: string)
    requires Descend(value, keys) == Missing(key)
    ensures exists i :: 0 <= i < |keys| && keys[i] == key && StopsAt(value, keys, i)
    decreases |keys|
  {
    assert value.JObject?;
    var next := Get(value.fields, keys[0]);
    if next.JNull? {
      assert keys[..0] == [];
      assert StopsAt(value, keys, 0);
    } else {
      MissingIsFirst(next, keys[1..], key);
      var i :| 0 <= i < |keys[1..]| && keys[1..][i] == key && StopsAt(next, keys[1..], i);
      assert keys[..i + 1] == [keys[0]] + keys[1..][..i];
      assert Descend(value, keys[..i + 1]) == Descend(next, keys[1..][..i]);
      assert StopsAt(value, keys, i + 1);
    }
  }

  /** The first `i` keys lead to an object in which `keys[i]` is absent or null. */
  predicate StopsAt(value: Json, keys: seq<string>, i: int)
    requires 0 <= i < |keys|
  {
    var prefix := Descend(value, keys[..i]);
    prefix.Reached? && prefix.value.JObject? && Get(prefix.value.fields, keys[i]).JNull?
  }

  /** Without `throw_key_error` a missing key never raises: the default is returned. */
  lemma DefaultOnMissing(data: Json, keys: seq<string>, default: Json)
    ensures NestedGet(data, keys, false, default).Failure?
        <==> Descend(data, keys) == NotAnObject
    ensures Descend(data, keys).Missing? ==> NestedGet(data, keys, false, default) == Success(default)
  {
  }

  /** A path of present, non-null keys through objects reaches the value at its end. */
  lemma PresentPathReaches(data: Json, keys: seq<string>, throwKeyError: bool, default: Json)
    requires keys != []
    requires data.JObject? && !Get(data.fields, keys[0]).JNull?
    ensures NestedGet(data, keys, throwKeyError, default)
         == NestedGet(data.fields[keys[0]], keys[1..], throwKeyError, default)
  {
  }
}
