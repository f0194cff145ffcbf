/** JSON values as serde_json holds them. An object lists its members in the
    order its map iterates them. */
module JsonValues {
  import opened Wrappers
  import opened Text

  datatype Numeral = Unsigned(value: u64) | Negative(magnitude: nat) | Fraction(fraction: real)

  datatype Json =
    | Null
    | Bool(truth: bool)
    | Number(number: Numeral)
    | String(text: string)
    | Array(items: seq<Json>)
    | Object(members: seq<Member>)

  datatype Member = Member(key: string, value: Json)

  function Find(members: seq<Member>, key: string): (r: Option<Json>)
    ensures r.Some? ==> exists i :: 0 <= i < |members| && members[i] == Member(key, r.value)
    ensures r.None? ==> forall i :: 0 <= i < |members| ==> members[i].key != key
  {
    if members == [] then None
    else if members[0].key == key then Some(members[0].value)
    else Find(members[1..], key)
  }

  /** `Value::get` with a string key: only objects have members. */
  function Get(value: Json, key: string): (r: Option<Json>) {
    if value.Object? then Find(value.members, key) else None
  }

  function AsText(value: Json): (r: Option<string>) {
    if value.String? then Some(value.text) else None
  }

  function AsU64(value: Json): (r: Option<u64>) {
    if value.Number? && value.number.Unsigned? then Some(value.number.value) else None
  }
}
