/**
 * The JSON documents asset definitions are written in. An object is an
 * ordered list of members, as `Json::getObject` returns it, so key order is
 * kept and a key may repeat. Only what the builders ask of a document is
 * modelled: its shape, its members and the first member with a given key.
 */
module JsonValues {
  import opened Wrappers

  datatype Json =
    | Null
    | Bool(b: bool)
    | Number(n: int)
    | Str(s: string)
    | Array(items: seq<Json>)
    | Object(members: seq<(string, Json)>)

  /** The shape name `Json::typeName` reports in error messages. */
  function TypeName(j: Json): string
  {
    match j
    case Null => "null"
    case Bool(_) => "bool"
    case Number(_) => "number"
    case Str(_) => "string"
    case Array(_) => "array"
    case Object(_) => "object"
  }

  /** `std::find_if` on the members for `key`: the position of the first
      member with that key. */
  function FindKey(members: seq<(string, Json)>, key: string): (r: Option<nat>)
    ensures r.Some? ==> r.value < |members| && members[r.value].0 == key
    ensures r.Some? ==> forall k :: 0 <= k < r.value ==> members[k].0 != key
    ensures r.None? <==> forall k :: 0 <= k < |members| ==> members[k].0 != key
  {
    if members == [] then None
    else if members[0].0 == key then Some(0)
    else match FindKey(members[1..], key)
      case None => None
      case Some(i) => Some(i + 1)
  }

  /** `erase` of the member at position `i`. */
  function Erase(members: seq<(string, Json)>, i: nat): (r: seq<(string, Json)>)
    requires i < |members|
    ensures |r| == |members| - 1
    ensures forall k :: 0 <= k < i ==> r[k] == members[k]
    ensures forall k :: i <= k < |r| ==> r[k] == members[k + 1]
  {
    members[..i] + members[i + 1..]
  }

  /** The keys of the members, in order. */
  function Keys(members: seq<(string, Json)>): (r: seq<string>)
    ensures |r| == |members| && forall k :: 0 <= k < |members| ==> r[k] == members[k].0
  {
    seq(|members|, k requires 0 <= k < |members| => members[k].0)
  }

  lemma KeysAppend(a: seq<(string, Json)>, b: seq<(string, Json)>)
    ensures Keys(a + b) == Keys(a) + Keys(b)
  {
  }

  /** Erasing the first member with `key` removes one occurrence of the key
      and keeps every other member, in order. */
  lemma EraseFirst(members: seq<(string, Json)>, key: string)
    requires FindKey(members, key).Some?
    ensures var i := FindKey(members, key).value;
      multiset(Keys(Erase(members, i))) == multiset(Keys(members)) - multiset{key}
  {
    var i := FindKey(members, key).value;
    var a, b := members[..i], members[i + 1..];
    assert members == a + [members[i]] + b;
    KeysAppend(a + [members[i]], b);
    KeysAppend(a, [members[i]]);
    KeysAppend(a, b);
    assert Keys([members[i]]) == [key];
  }
}
