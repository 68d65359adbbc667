/** The class hierarchy the generator's walk describes, as a value: every
    field gets a type descriptor, and a descriptor that needs a nested class
    owns that class's description. Nothing here is text; the `Render` module
    lays the tree out as the generator's lines. */
module Schema {
  import opened Json
  import opened Naming

  /** The four Java types the generator ever names for a scalar. */
  datatype Primitive = JavaString | JavaInt | JavaBoolean | JavaDouble

  datatype TypeDesc =
    | Prim(kind: Primitive)
    | ListOf(elem: TypeDesc)
    | ClassRef(spec: ClassSpec)   // the nested class this field declares and uses

  datatype FieldSpec = FieldSpec(name: string, typ: TypeDesc)

  datatype ClassSpec = ClassSpec(name: string, fields: seq<FieldSpec>)

  function PrimitiveName(p: Primitive): string {
    match p
    case JavaString => "String"
    case JavaInt => "int"
    case JavaBoolean => "boolean"
    case JavaDouble => "double"
  }

  /** The Java spelling of a type descriptor. */
  function TypeName(t: TypeDesc): string {
    match t
    case Prim(p) => PrimitiveName(p)
    case ListOf(e) => "List<" + TypeName(e) + ">"
    case ClassRef(c) => c.name
  }

  /** The values the walk gets through without an exception: every array it
      looks into has a first element, and every object it turns into a nested
      class has a first key, and that key is not empty. Only the first element
      of an array is ever visited. */
  predicate Typable(v: Value)
    decreases v
  {
    match v
    case Array(elems) => |elems| > 0 && Typable(elems[0])
    case Object(members) => |members| > 0 && |members[0].key| > 0 && MembersTypable(members)
    case _ => true
  }

  predicate MembersTypable(members: seq<Member>)
    decreases members
  {
    forall i :: 0 <= i < |members| ==> Typable(members[i].value)
  }

  /** The descriptor inferred for a field holding `v` inside class `parent`.
      A nested class is named after its parent and the first key of the
      nested object itself, not after the field that holds it. */
  function Infer(v: Value, parent: string): (t: TypeDesc)
    requires Typable(v)
    ensures v.Text? || v.Other? ==> t == Prim(JavaString)
    ensures v.Int? || v.Long? ==> t == Prim(JavaInt)
    ensures v.Bool? ==> t == Prim(JavaBoolean)
    ensures v.Double? ==> t == Prim(JavaDouble)
    ensures v.Array? <==> t.ListOf?
    ensures v.Array? ==> t.elem == Infer(v.elems[0], parent)
    ensures v.Object? <==> t.ClassRef?
    ensures v.Object? ==>
              && t.spec.name == parent + CapitalizeFirstLetter(v.members[0].key)
              && |t.spec.fields| == |v.members|
    decreases v
  {
    match v
    case Text(_) => Prim(JavaString)
    case Int(_) => Prim(JavaInt)
    case Long(_) => Prim(JavaInt)
    case Bool(_) => Prim(JavaBoolean)
    case Double(_) => Prim(JavaDouble)
    case Array(elems) => ListOf(Infer(elems[0], parent))
    case Object(members) =>
      var name := parent + CapitalizeFirstLetter(members[0].key);
      ClassRef(ClassSpec(name, SynthesizeFields(members, name)))
    case Other(_) => Prim(JavaString)
  }

  /** One field per member, in iteration order, named after its key and typed
      in the context of class `className`. */
  function SynthesizeFields(members: seq<Member>, className: string): (fs: seq<FieldSpec>)
    requires MembersTypable(members)
    ensures |fs| == |members|
    ensures forall i :: 0 <= i < |members| ==>
              fs[i].name == members[i].key && fs[i].typ == Infer(members[i].value, className)
    decreases members
  {
    if |members| == 0 then []
    else [FieldSpec(members[0].key, Infer(members[0].value, className))]
         + SynthesizeFields(members[1..], className)
  }

  /** The root class for a document. Its members are Jackson's `fields()`, so
      a root that is not an object yields a class without fields. */
  function Synthesize(root: Value, className: string): (c: ClassSpec)
    requires MembersTypable(Fields(root))
    ensures c.name == className
    ensures |c.fields| == |Fields(root)|
    ensures forall i :: 0 <= i < |c.fields| ==> c.fields[i].name == Fields(root)[i].key
  {
    ClassSpec(className, SynthesizeFields(Fields(root), className))
  }

  /** A member list is typable exactly when its head's value and its tail are. */
  lemma MembersTypableUncons(members: seq<Member>)
    requires |members| > 0
    ensures MembersTypable(members) <==> Typable(members[0].value) && MembersTypable(members[1..])
  {
    if Typable(members[0].value) && MembersTypable(members[1..]) {
      forall i | 0 <= i < |members|
        ensures Typable(members[i].value)
      {
        if i > 0 { assert members[i] == members[1..][i - 1]; }
      }
    }
  }

  /** Field synthesis unfolds one member at a time. */
  lemma SynthesizeFieldsUncons(members: seq<Member>, className: string)
    requires |members| > 0
    requires MembersTypable(members)
    ensures MembersTypable(members[1..])
    ensures SynthesizeFields(members, className)
            == [FieldSpec(members[0].key, Infer(members[0].value, className))]
               + SynthesizeFields(members[1..], className)
  {
    MembersTypableUncons(members);
  }
}
