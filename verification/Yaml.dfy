/** YAML documents as finite trees. A mapping keeps no key order: every loop over
    a mapping below picks its keys in an arbitrary order, so what is proved about
    it holds for the order in which the file lists them. */
module Yaml {
  import opened Wrappers

  datatype Value =
    | Null
    | Bool(b: bool)
    | Number(text: string)
    | Str(s: string)
    | Sequence(items: seq<Value>)
    | Map(entries: Mapping)

  type Mapping = map<Value, Value>

  /** `mapping.get("key")`. */
  function Get(m: Mapping, key: string): Option<Value> {
    if Str(key) in m then Some(m[Str(key)]) else None
  }

  /** `mapping.get("key").and_then(Value::as_str)`. */
  function GetStr(m: Mapping, key: string): Option<string> {
    match Get(m, key)
    case Some(Str(s)) => Some(s)
    case _ => None
  }

  /** `mapping.get("key").and_then(Value::as_mapping).cloned().unwrap_or_default()`. */
  function GetMapOrEmpty(m: Mapping, key: string): Mapping {
    match Get(m, key)
    case Some(Map(entries)) => entries
    case _ => map[]
  }

  /** `mapping.get("key")` as a sequence, empty when it is anything else. */
  function GetSeqOrEmpty(m: Mapping, key: string): seq<Value> {
    match Get(m, key)
    case Some(Sequence(items)) => items
    case _ => []
  }

  /** A mapping held by mutable reference, as the `&mut Mapping` parameters of the source. */
  class Config {
    var entries: Mapping

    constructor (entries: Mapping)
      ensures this.entries == entries
    {
      this.entries := entries;
    }
  }
}
