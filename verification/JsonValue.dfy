/** JSON trees. The keys of an object are distinct and in a fixed order. */
module JsonValue {
  import opened Wrappers

  datatype Json =
    | Null
    | Bool(b: bool)
    | Number(digits: string)
    | Str(text: string)
    | Arr(items: seq<Json>)
    | Obj(members: seq<Member>)

  datatype Member = Member(key: string, value: Json)

  /** The member of an object, or nothing for any other value. */
  function Get(v: Json, key: string): Option<Json> {
    if v.Obj? then Find(v.members, key) else None
  }

  function Find(members: seq<Member>, key: string): Option<Json> {
    if members == [] then None else if members[0].key == key then Some(members[0].value) else Find(members[1..], key)
  }

  /** The first member under the key, if the value is an object that has one. */
  lemma {:induction false} GetIs(members: seq<Member>, key: string)
    ensures forall v: Json | !v.Obj? :: Get(v, key) == None
    ensures (forall i | 0 <= i < |members| :: members[i].key != key) ==> Get(Obj(members), key) == None
    ensures forall i | 0 <= i < |members| && members[i].key == key && (forall j | 0 <= j < i :: members[j].key != key) ::
              Get(Obj(members), key) == Some(members[i].value)
  {
    if members != [] {
      GetIs(members[1..], key);
      forall i | 0 <= i < |members| && members[i].key == key && (forall j | 0 <= j < i :: members[j].key != key)
        ensures Find(members, key) == Some(members[i].value)
      {
        if i > 0 {
          assert members[0].key != key && members[1..][i - 1] == members[i];
          assert forall j | 0 <= j < i - 1 :: members[1..][j] == members[j + 1];
          assert Get(Obj(members[1..]), key) == Some(members[i].value);
        }
      }
    }
  }
}
