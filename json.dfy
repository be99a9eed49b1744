/** The value `json_decode($text, true)` produces: JSON objects become PHP
    associative arrays (kept here as their members in order), JSON arrays
    become PHP lists. `json_decode` itself is not part of this model; the
    parser receives it as a function. */
module Json {
  import opened Wrappers

  datatype Json =
    | JNull
    | JBool(b: bool)
    | JNum(n: int)
    | JStr(s: string)
    | JArr(items: seq<Json>)
    | JObj(members: seq<(string, Json)>)

  /** The value stored under `key` in a list of object members; the first
      member with that key wins. */
  function Lookup(members: seq<(string, Json)>, key: string): Option<Json> {
    if members == [] then None
    else if members[0].0 == key then Some(members[0].1)
    else Lookup(members[1..], key)
  }

  /** PHP `isset($v[key])` for a string key: only an associative array
      with a non-null value under `key` qualifies; strings, numbers, lists
      and null never do. */
  predicate IsSet(v: Json, key: string) {
    v.JObj? && Lookup(v.members, key).Some? && Lookup(v.members, key).value != JNull
  }

  /** PHP `$v[key] ?? default`. */
  function Field(v: Json, key: string, default: Json): (r: Json)
    ensures IsSet(v, key) ==> r == Lookup(v.members, key).value && r != JNull
    ensures !IsSet(v, key) ==> r == default
  {
    if IsSet(v, key) then Lookup(v.members, key).value else default
  }

  /** PHP `is_array`: both a list and an associative array are arrays. */
  predicate IsArray(v: Json) {
    v.JArr? || v.JObj?
  }

  /** The values a `foreach` over an array visits, in order. */
  function Elements(v: Json): (r: seq<Json>)
    requires IsArray(v)
    ensures v.JArr? ==> r == v.items
    ensures v.JObj? ==> |r| == |v.members| && forall i :: 0 <= i < |r| ==> r[i] == v.members[i].1
  {
    if v.JArr? then v.items else Values(v.members)
  }

  /** The values of object members, in order. */
  function Values(members: seq<(string, Json)>): (r: seq<Json>)
    ensures |r| == |members| && forall i :: 0 <= i < |r| ==> r[i] == members[i].1
  {
    if members == [] then [] else [members[0].1] + Values(members[1..])
  }
}
