/** JSON values as trees, and the paths that lead into them. */
module Json {
  import opened Wrappers

  datatype Value =
    | Null
    | Bool(b: bool)
    | Number(text: string)
    | String(s: string)
    | Array(items: seq<Value>)
    | Object(fields: seq<(string, Value)>)

  datatype Step = Item(index: nat) | Member(key: string)

  type Path = seq<Step>

  /** The position of a key in an object, or the number of fields. */
  function FieldIndex(fields: seq<(string, Value)>, key: string): (i: nat)
    ensures i <= |fields|
    ensures i < |fields| ==> fields[i].0 == key
    ensures forall j :: 0 <= j < i ==> fields[j].0 != key
  {
    if fields == [] || fields[0].0 == key then 0 else 1 + FieldIndex(fields[1..], key)
  }

  function Child(v: Value, step: Step): (r: Option<Value>)
    ensures r.Some? ==> r.value < v
  {
    match (v, step)
    case (Array(items), Item(i)) => if i < |items| then Some(items[i]) else None
    case (Object(fields), Member(key)) =>
      var i := FieldIndex(fields, key);
      if i < |fields| then Some(fields[i].1) else None
    case _ => None
  }

  /** What a path leads to. */
  function Lookup(v: Value, path: Path): Option<Value>
    decreases |path|
  {
    if path == [] then Some(v)
    else match Child(v, path[0])
      case None => None
      case Some(c) => Lookup(c, path[1..])
  }
}
