/** A value produced by `JSON.parse`, and the few JavaScript operations the
    recovery code applies to such a value: truthiness, `typeof`, property
    lookup `v[key]` and the `for..in` enumeration of an object's children. */
module JsonValue {
  import opened Wrappers

  /** An object is its members in `for..in` enumeration order; the keys of one
      object are distinct, as they are after parsing. */
  datatype Json =
    | Null
    | Bool(b: bool)
    | Num(n: real)
    | Str(s: string)
    | Arr(items: seq<Json>)
    | Obj(members: seq<(string, Json)>)

  /** JavaScript truthiness: `null`, `false`, `0` and `""` are falsy; every
      array and every object, even an empty one, is truthy. */
  predicate Truthy(v: Json) {
    match v
    case Null => false
    case Bool(b) => b
    case Num(n) => n != 0.0
    case Str(s) => s != ""
    case Arr(_) => true
    case Obj(_) => true
  }

  /** `typeof v === 'object'`, which holds for `null` as well. */
  predicate IsTypeofObject(v: Json) {
    v.Null? || v.Arr? || v.Obj?
  }

  /** The value stored under `key` among `members`, `None` when there is none. */
  function Lookup(members: seq<(string, Json)>, key: string): (r: Option<Json>)
    ensures r.None? <==> forall i :: 0 <= i < |members| ==> members[i].0 != key
    ensures r.Some? ==> exists i :: 0 <= i < |members| && members[i] == (key, r.value)
  {
    if members == [] then None
    else if members[0].0 == key then Some(members[0].1)
    else Lookup(members[1..], key)
  }

  /** `v[key]` for a key that is not an array index: an object's member, and
      `undefined` (`None`) for everything else. None of the keys the recovery
      code looks up is a property of arrays, strings or the object prototype. */
  function Get(v: Json, key: string): Option<Json> {
    if v.Obj? then Lookup(v.members, key) else None
  }

  /** `!!v[key]` */
  predicate TruthyAt(v: Json, key: string) {
    Get(v, key).Some? && Truthy(Get(v, key).value)
  }

  /** The values of the members, in order. */
  function Values(members: seq<(string, Json)>): (r: seq<Json>)
    ensures |r| == |members|
    ensures forall i :: 0 <= i < |members| ==> r[i] == members[i].1
  {
    seq(|members|, i requires 0 <= i < |members| => members[i].1)
  }

  /** `obj[key]` for every `key` that `for (const key in obj)` enumerates: the
      elements of an array, the member values of an object. */
  function Children(v: Json): seq<Json> {
    match v
    case Arr(items) => items
    case Obj(members) => Values(members)
    case _ => []
  }
}
