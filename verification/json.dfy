/** An already-decoded JSON tree, as the jansson library hands it to the trust router.
    Only the accessors the core uses are modelled. */
module Json {
  import opened Base

  datatype Json =
    | JNull
    | JBool(b: bool)
    | JInt(i: int)
    | JReal(r: real)
    | JString(s: string)
    | JArray(elems: seq<Json>)
    | JObject(members: seq<(string, Json)>)

  /** json_object_get: the value bound to `key`, or None when `j` is not an object or has
      no such key. Objects are kept as association lists and assumed to hold each key at
      most once, as a decoded jansson object does (decoding itself is not modelled). */
  function Get(j: Json, key: string): (r: Option<Json>)
    ensures r.Some? ==> j.JObject? && exists k :: 0 <= k < |j.members| && j.members[k] == (key, r.value)
    ensures r.None? ==> !j.JObject? || forall k :: 0 <= k < |j.members| ==> j.members[k].0 != key
  {
    if j.JObject? then Lookup(j.members, key) else None
  }

  function Lookup(ms: seq<(string, Json)>, key: string): (r: Option<Json>)
    ensures r.Some? ==> exists k :: 0 <= k < |ms| && ms[k] == (key, r.value)
    ensures r.None? ==> forall k :: 0 <= k < |ms| ==> ms[k].0 != key
  {
    if |ms| == 0 then None
    else if ms[0].0 == key then Some(ms[0].1)
    else Lookup(ms[1..], key)
  }

  /** json_array_size / json_array_foreach: a non-array behaves as an empty array. */
  function Elems(j: Json): seq<Json>
  {
    if j.JArray? then j.elems else []
  }

  /** json_object_foreach: a non-object yields no members. */
  function Members(j: Json): seq<(string, Json)>
  {
    if j.JObject? then j.members else []
  }

  /** json_string_value: the text of a string value, None for anything else. */
  function StringValue(j: Json): Option<string>
  {
    if j.JString? then Some(j.s) else None
  }
}
