/** The decoded YAML/JSON trees every overlay function walks. */
module Values {

  datatype Option<+T> = None | Some(value: T) {
    function GetOr(default: T): T {
      if Some? then value else default
    }
  }

  /** One decoded document node. A `Float` carries the shortest decimal text of its 64-bit
      value (Go's FormatFloat with format 'f'), so no rounding is modelled. Two values are
      equal exactly when their YAML encodings are. */
  datatype Value =
    | Null
    | Bool(b: bool)
    | Int(i: int)
    | Float(text: string)
    | Str(s: string)
    | List(items: seq<Value>)
    | Map(fields: Fields)

  type Fields = map<string, Value>

  /** The value a path of keys reaches; `None` when a segment is missing or meets a non-map. */
  function Lookup(v: Value, path: seq<string>): Option<Value>
    decreases |path|
  {
    if path == [] then Some(v)
    else if v.Map? && path[0] in v.fields then Lookup(v.fields[path[0]], path[1..])
    else None
  }

  /** The cursor loop of RawValue. */
  method RawValue(fields: Fields, path: seq<string>) returns (found: Option<Value>)
    ensures found == Lookup(Map(fields), path)
  {
    var cur := Map(fields);
    for i := 0 to |path|
      invariant Lookup(Map(fields), path) == Lookup(cur, path[i..])
    {
      if !cur.Map? || path[i] !in cur.fields {
        return None;
      }
      cur := cur.fields[path[i]];
    }
    found := Some(cur);
  }
}
