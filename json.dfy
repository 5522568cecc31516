/// JSON values as the repository server handles them: what JSON.parse
/// yields and what res.json sends back.
module Json {

  datatype Option<+T> = None | Some(value: T)

  /** A JSON value, standing for the JavaScript value JSON.parse builds.
      Arrays keep their order. The model does not capture how
      JSON.stringify writes that value back out. It collapses repeated
      keys, moves integer-like keys first, and respells numbers. So an
      object's member list and a number's literal are the parsed value's
      members and number, not the characters the server sends. */
  datatype Json =
    | JNull
    | JBool(b: bool)
    | JNumber(literal: string)
    | JString(text: string)
    | JArray(items: seq<Json>)
    | JObject(members: seq<(string, Json)>)

  /** The value of `key` in an object's member list. When a key is repeated
      the last member wins, as with JSON.parse. */
  function Member(members: seq<(string, Json)>, key: string): Option<Json>
    decreases |members|
  {
    if members == [] then None
    else if members[|members| - 1].0 == key then Some(members[|members| - 1].1)
    else Member(members[..|members| - 1], key)
  }

  /** A key no member has gives nothing. */
  lemma {:induction false} MemberAbsent(members: seq<(string, Json)>, key: string)
    requires forall i :: 0 <= i < |members| ==> members[i].0 != key
    ensures Member(members, key) == None
    decreases |members|
  {
    if members != [] {
      MemberAbsent(members[..|members| - 1], key);
    }
  }

  /** The member at index `i` is what `key` gives when no later member
      repeats the key. */
  lemma {:induction false} MemberAt(members: seq<(string, Json)>, i: nat, key: string)
    requires i < |members| && members[i].0 == key
    requires forall j :: i < j < |members| ==> members[j].0 != key
    ensures Member(members, key) == Some(members[i].1)
    decreases |members|
  {
    if i < |members| - 1 {
      MemberAt(members[..|members| - 1], i, key);
    }
  }

  /** `j[key]` for an object; nothing for any other kind of value. */
  function Field(j: Json, key: string): Option<Json> {
    if j.JObject? then Member(j.members, key) else None
  }

  /** `j[key]` when it is a string. */
  function StringField(j: Json, key: string): Option<string> {
    match Field(j, key)
    case Some(JString(t)) => Some(t)
    case _ => None
  }
}
