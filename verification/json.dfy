/**
 The values `json.loads` produces, the way the endpoint reads them: Python truthiness
 (`if not x`) and `dict.get(key)` on a decoded object.
 */
module Json {
  import opened Wrappers

  /** A decoded JSON value. Objects keep their members in source order, duplicates included. */
  datatype Value =
    | Null
    | Bool(b: bool)
    | Int(n: int)
    | Str(s: string)
    | Array(items: seq<Value>)
    | Object(members: seq<(string, Value)>)

  /** The values Python reads as false: `None`, `False`, `0`, `""`, `[]` and `{}`. */
  predicate Falsy(v: Value)
  {
    v == Null || v == Bool(false) || v == Int(0) || v == Str("") || v == Array([]) || v == Object([])
  }

  /** Python truthiness of the decoded value (`if not x`): everything but the falsy values. */
  predicate Truthy(v: Value)
    ensures Truthy(v) <==> !Falsy(v)
  {
    match v
    case Null => false
    case Bool(b) => b
    case Int(n) => n != 0
    case Str(s) => |s| > 0
    case Array(items) => |items| > 0
    case Object(members) => |members| > 0
  }

  /** Truthiness of a lookup result, where a missing key reads as Python's `None`. */
  predicate TruthyOpt(v: Option<Value>)
    ensures TruthyOpt(v) <==> v.Some? && !Falsy(v.value)
  {
    v.Some? && Truthy(v.value)
  }

  /**
   `obj.get(key)` on the dict `json.loads` builds: a repeated key keeps its LAST value,
   and a missing key gives None.
   */
  function Get(members: seq<(string, Value)>, key: string): Option<Value>
  {
    if |members| == 0 then None
    else if members[|members| - 1].0 == key then Some(members[|members| - 1].1)
    else Get(members[..|members| - 1], key)
  }

  /** Get finds nothing exactly when no member has the key, and otherwise the last member that has it. */
  lemma {:induction false} GetSpec(members: seq<(string, Value)>, key: string)
    ensures Get(members, key).None? <==> forall i :: 0 <= i < |members| ==> members[i].0 != key
    ensures Get(members, key).Some? ==>
              exists i :: 0 <= i < |members| && members[i] == (key, Get(members, key).value)
                          && forall j :: i < j < |members| ==> members[j].0 != key
  {
    if |members| > 0 && members[|members| - 1].0 != key {
      var front := members[..|members| - 1];
      GetSpec(front, key);
      assert forall i :: 0 <= i < |front| ==> members[i] == front[i];
    }
  }
}
