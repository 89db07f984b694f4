/**
 * Values produced by json_decode($body, true), and the PHP operations the
 * core applies to them: isset, `??`, is_array and the (string)/(int) casts.
 * Floating-point numbers are not part of this model.
 */
module Json {
  import opened Wrappers
  import Text

  /** A decoded JSON body; Null also stands for a body that failed to decode. */
  datatype Value =
    | Null
    | Bool(b: bool)
    | Num(n: int)
    | Str(s: string)
    | List(items: seq<Value>)
    | Object(fields: seq<(string, Value)>)

  /** is_array: a JSON list or object becomes a PHP array. */
  predicate IsArray(v: Value) { v.List? || v.Object? }

  /** $v[$key] for an object; the first field with that key. */
  function Get(v: Value, key: string): (r: Option<Value>)
    decreases if v.Object? then |v.fields| else 0
  {
    if !v.Object? || v.fields == [] then None
    else if v.fields[0].0 == key then Some(v.fields[0].1)
    else Get(Object(v.fields[1..]), key)
  }

  /** isset($v[$key]): present and not null. */
  predicate IsSet(v: Value, key: string) {
    Get(v, key).Some? && !Get(v, key).value.Null?
  }

  /** $v[$key] ?? null. */
  function At(v: Value, key: string): Value {
    match Get(v, key)
    case Some(x) => x
    case None => Null
  }

  /** The elements a PHP foreach visits, in order. */
  function Elements(v: Value): seq<Value> {
    match v
    case List(items) => items
    case Object(fields) => seq(|fields|, i requires 0 <= i < |fields| => fields[i].1)
    case _ => []
  }

  /** (string) $v. */
  function ToStr(v: Value): string {
    match v
    case Null => ""
    case Bool(b) => if b then "1" else ""
    case Num(n) => Text.IntToString(n)
    case Str(s) => s
    case _ => "Array"
  }

  /** (int) $v. */
  function ToInt(v: Value): int {
    match v
    case Null => 0
    case Bool(b) => if b then 1 else 0
    case Num(n) => n
    case Str(s) => Text.IntVal(s)
    case List(items) => if items == [] then 0 else 1
    case Object(fields) => if fields == [] then 0 else 1
  }

  /** The first field named `key` is the one read. */
  lemma {:induction false} GetAt(fields: seq<(string, Value)>, i: nat, key: string)
    requires i < |fields| && fields[i].0 == key
    requires forall j :: 0 <= j < i ==> fields[j].0 != key
    ensures Get(Object(fields), key) == Some(fields[i].1)
  {
    if i > 0 {
      GetAt(fields[1..], i - 1, key);
    }
  }

  /** A key no field carries reads as absent. */
  lemma {:induction false} GetAbsent(fields: seq<(string, Value)>, key: string)
    requires forall j :: 0 <= j < |fields| ==> fields[j].0 != key
    ensures Get(Object(fields), key) == None
  {
    if fields != [] {
      GetAbsent(fields[1..], key);
    }
  }

  /** Appending a field changes a read only when the key was absent and is the appended one. */
  lemma {:induction false} GetSnoc(fields: seq<(string, Value)>, k: string, x: Value, key: string)
    ensures Get(Object(fields + [(k, x)]), key)
            == if Get(Object(fields), key).Some? then Get(Object(fields), key)
               else if k == key then Some(x) else None
  {
    if fields == [] {
      assert fields + [(k, x)] == [(k, x)];
    } else {
      assert (fields + [(k, x)])[1..] == fields[1..] + [(k, x)];
      GetSnoc(fields[1..], k, x, key);
    }
  }
}
