/** The parsed JSON tree the generator walks (a Jackson `JsonNode`).
    Object members keep their iteration order, which is insertion order. */
module Json {

  newtype int32 = x: int | -0x8000_0000 <= x < 0x8000_0000
  newtype int64 = x: int | -0x8000_0000_0000_0000 <= x < 0x8000_0000_0000_0000

  /** Node kinds that none of the generator's type tests accept. */
  datatype OtherKind =
    | NullNode
    | MissingNode
    | BigIntegerNode
    | DecimalNode
    | FloatNode
    | ShortNode
    | BinaryNode
    | PojoNode

  datatype Value =
    | Text(s: string)                 // isTextual()
    | Int(i: int32)                   // isInt()
    | Long(l: int64)                  // isLong()
    | Bool(b: bool)                   // isBoolean()
    | Double(d: real)                 // isDouble(); the IEEE value is abstracted
    | Array(elems: seq<Value>)        // isArray()
    | Object(members: seq<Member>)    // isObject()
    | Other(kind: OtherKind)

  datatype Member = Member(key: string, value: Value)

  /** `JsonNode.fields()`: the members of an object, and nothing for every
      other kind of node. */
  function Fields(v: Value): (ms: seq<Member>)
    ensures v.Object? ==> ms == v.members
    ensures !v.Object? ==> ms == []
  {
    if v.Object? then v.members else []
  }
}
