/** JSON-like values: the shape of the dictionaries the BI engine produces
    and reads back. Objects keep their keys in insertion order, as Python
    dicts do. */
module Json {
  import opened Wrappers

  datatype Json =
    | JNull
    | JBool(b: bool)
    | JInt(i: int)
    | JStr(s: string)
    | JArr(items: seq<Json>)
    | JObj(members: seq<(string, Json)>)

  /** Position of the first member with the given key. */
  function Find(members: seq<(string, Json)>, key: string): (r: Option<nat>)
    ensures r.Some? ==> r.value < |members| && members[r.value].0 == key
  {
    if |members| == 0 then None
    else if members[0].0 == key then Some(0)
    else match Find(members[1..], key)
      case None => None
      case Some(i) => Some(i + 1)
  }
}
