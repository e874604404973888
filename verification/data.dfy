/** The plain data objects the engine produces and consumes. */
module Data {
  import opened OrderedMaps

  /**
   A JavaScript value as the engine sees it. `Other` stands for the values of
   the codecs this model leaves out (numbers, dates, buffers); only their
   truthiness matters to the engine.
   */
  datatype Value =
    | Null
    | Bool(b: bool)
    | Str(s: string)
    | Arr(items: seq<Value>)
    | Obj(props: Object)
    | Other(id: nat, truthy: bool)

  /** A plain object: its own keys in insertion order. */
  type Object = OrderedMap<string, Value>

  /** JavaScript truthiness. */
  predicate Truthy(v: Value) {
    match v
    case Null => false
    case Bool(b) => b
    case Str(s) => s != ""
    case Arr(_) => true
    case Obj(_) => true
    case Other(_, t) => t
  }
}
