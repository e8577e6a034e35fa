/** The dynamically typed objects that flow between the input facts, the
    property resolver and the rule outputs. */
module Values {

  /** A Java object as the rule engine sees it.  `Other` stands for any object
      the core only passes along (floating-point numbers, dates, beans). */
  datatype Value =
    | Null
    | Bool(b: bool)
    | Int(i: int)
    | Str(s: string)
    | List(items: seq<Value>)
    | Map(entries: map<string, Value>)
    | Other

  /** Java's `Map.get`: an absent key and a key bound to null both read as null. */
  function Get(m: map<string, Value>, key: string): Value
  {
    if key in m then m[key] else Null
  }
}
