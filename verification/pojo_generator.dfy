/** The generator as written: a walk over the JSON tree that appends lines to
    one shared buffer, threading that buffer through every call. A Java
    exception ends the walk and is returned as a `Failure`; the buffer is then
    never written out. */
module PojoGenerator {
  import opened Wrappers
  import opened Json
  import opened Naming
  import opened JavaSyntax

  /** The runtime exceptions the walk can raise. */
  datatype Fault =
    | NoSuchElement          // `next()` on the elements of an empty array or the keys of an empty object
    | StringIndexOutOfBounds // `substring(0, 1)` on an empty key

  type Buffer = seq<string>

  /** What `determineFieldType` returns, together with the buffer it leaves. */
  datatype Typed = Typed(typeName: string, buf: Buffer)

  /** `determineFieldType`: the Java type name of a field holding `v`, after
      appending to `buf` the nested class that type needs, if any. */
  function DetermineFieldType(v: Value, parent: string, buf: Buffer): (r: Result<Typed, Fault>)
    ensures r.Success? ==> |buf| <= |r.value.buf| && r.value.buf[..|buf|] == buf
    ensures v.Text? || v.Other? ==> r == Success(Typed("String", buf))
    ensures v.Int? || v.Long? ==> r == Success(Typed("int", buf))
    ensures v.Bool? ==> r == Success(Typed("boolean", buf))
    ensures v.Double? ==> r == Success(Typed("double", buf))
    ensures v.Array? && |v.elems| == 0 ==> r == Failure(NoSuchElement)
    ensures v.Object? && |v.members| == 0 ==> r == Failure(NoSuchElement)
    ensures v.Object? && |v.members| > 0 && |v.members[0].key| == 0
            ==> r == Failure(StringIndexOutOfBounds)
    ensures v.Object? && r.Success? ==>
              && |v.members[0].key| >= 1
              && r.value.typeName == parent + CapitalizeFirstLetter(v.members[0].key)
              && |r.value.buf| >= |buf| + |NestedClassHeader(r.value.typeName)| + |NestedClassFooter|
              && r.value.buf[|buf|..|buf| + |NestedClassHeader(r.value.typeName)|] == NestedClassHeader(r.value.typeName)
              && r.value.buf[|r.value.buf| - 2..] == NestedClassFooter
    decreases v
  {
    match v
    case Text(_) => Success(Typed("String", buf))
    case Int(_) => Success(Typed("int", buf))
    case Long(_) => Success(Typed("int", buf))
    case Bool(_) => Success(Typed("boolean", buf))
    case Double(_) => Success(Typed("double", buf))
    case Array(elems) =>
      if |elems| == 0 then Failure(NoSuchElement)
      else
        var element :- DetermineFieldType(elems[0], parent, buf);
        Success(Typed("List<" + element.typeName + ">", element.buf))
    case Object(members) =>
      if |members| == 0 then Failure(NoSuchElement)
      else if |members[0].key| == 0 then Failure(StringIndexOutOfBounds)
      else
        var nestedClassName := parent + CapitalizeFirstLetter(members[0].key);
        var header := NestedClassHeader(nestedClassName);
        var body :- EmitFields(members, buf + header, nestedClassName);
        assert body[|buf|..|buf| + |header|] == (buf + header)[|buf|..];
        Success(Typed(nestedClassName, body + NestedClassFooter))
    case Other(_) => Success(Typed("String", buf))
  }

  /** The loop of `generateFieldsAndInnerClasses` over the members still to
      visit: each member's type is determined (which may append a nested
      class) and then its annotation and declaration are appended. */
  function EmitFields(members: seq<Member>, buf: Buffer, parent: string): (r: Result<Buffer, Fault>)
    ensures r.Success? ==> |buf| <= |r.value| && r.value[..|buf|] == buf
    ensures |members| == 0 ==> r == Success(buf)
    decreases members
  {
    if |members| == 0 then Success(buf)
    else
      var field := DetermineFieldType(members[0].value, parent, buf);
      if field.Failure? then Failure(field.error)
      else EmitFields(members[1..], field.value.buf + FieldLines(members[0].key, field.value.typeName), parent)
  }

  /** `generateFieldsAndInnerClasses`: the body of a class for `node`. Jackson's
      `fields()` is empty for anything but an object. */
  function GenerateFieldsAndInnerClasses(node: Value, buf: Buffer, parentClassName: string): (r: Result<Buffer, Fault>)
    ensures !node.Object? ==> r == Success(buf)
    ensures r.Success? ==> |buf| <= |r.value| && r.value[..|buf|] == buf
  {
    EmitFields(Fields(node), buf, parentClassName)
  }

  /** The text `generatePojoFromJsonFile` writes to `<className>.java`, before
      any file is touched. */
  function GenerateClassSource(packageName: string, className: string, root: Value): (r: Result<seq<string>, Fault>)
    ensures r.Success? ==>
              && |r.value| >= |FileHeader(packageName, className)| + 1
              && r.value[..|FileHeader(packageName, className)|] == FileHeader(packageName, className)
              && r.value[|r.value| - 1] == "}"
  {
    var body :- GenerateFieldsAndInnerClasses(root, FileHeader(packageName, className), className);
    Success(body + FileFooter)
  }
}
