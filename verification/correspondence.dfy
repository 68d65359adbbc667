/** The generator as written and the class tree agree: whenever the walk
    finishes, its buffer is the input buffer followed by the layout of the
    inferred tree, and it finishes exactly on the values the tree is defined
    for. */
module Correspondence {
  import opened Wrappers
  import opened Json
  import opened Naming
  import opened JavaSyntax
  import opened PojoGenerator
  import opened Schema
  import opened Render

  lemma {:induction false} DetermineFieldTypeMatchesTree(v: Value, parent: string, buf: Buffer)
    ensures Typable(v) ==>
              DetermineFieldType(v, parent, buf)
              == Success(Typed(TypeName(Infer(v, parent)), buf + RenderNested(Infer(v, parent))))
    ensures !Typable(v) ==> DetermineFieldType(v, parent, buf).Failure?
    decreases v
  {
    match v
    case Array(elems) =>
      if |elems| > 0 {
        DetermineFieldTypeMatchesTree(elems[0], parent, buf);
        ArrayCase(elems, parent, buf);
      }
    case Object(members) =>
      if |members| > 0 && |members[0].key| > 0 {
        var name := parent + CapitalizeFirstLetter(members[0].key);
        EmitFieldsMatchesTree(members, buf + NestedClassHeader(name), name);
        ObjectCase(members, parent, buf);
      }
    case _ =>
      assert buf + [] == buf;
  }

  /** The array step of the induction: an array behaves as its first element,
      wrapped in `List<...>`. */
  lemma ArrayCase(elems: seq<Value>, parent: string, buf: Buffer)
    requires |elems| > 0
    requires Typable(elems[0]) ==>
               DetermineFieldType(elems[0], parent, buf)
               == Success(Typed(TypeName(Infer(elems[0], parent)), buf + RenderNested(Infer(elems[0], parent))))
    requires !Typable(elems[0]) ==> DetermineFieldType(elems[0], parent, buf).Failure?
    ensures Typable(Array(elems)) ==>
              DetermineFieldType(Array(elems), parent, buf)
              == Success(Typed(TypeName(Infer(Array(elems), parent)), buf + RenderNested(Infer(Array(elems), parent))))
    ensures !Typable(Array(elems)) ==> DetermineFieldType(Array(elems), parent, buf).Failure?
  {
  }

  /** The object step of the induction: the walk declares the nested class,
      lays out its fields and closes it. */
  lemma ObjectCase(members: seq<Member>, parent: string, buf: Buffer)
    requires |members| > 0 && |members[0].key| > 0
    requires var name := parent + CapitalizeFirstLetter(members[0].key);
             && (MembersTypable(members) ==>
                  EmitFields(members, buf + NestedClassHeader(name), name)
                  == Success(buf + NestedClassHeader(name) + RenderFields(SynthesizeFields(members, name))))
             && (!MembersTypable(members) ==> EmitFields(members, buf + NestedClassHeader(name), name).Failure?)
    ensures Typable(Object(members)) ==>
              DetermineFieldType(Object(members), parent, buf)
              == Success(Typed(TypeName(Infer(Object(members), parent)), buf + RenderNested(Infer(Object(members), parent))))
    ensures !Typable(Object(members)) ==> DetermineFieldType(Object(members), parent, buf).Failure?
  {
    var name := parent + CapitalizeFirstLetter(members[0].key);
    var r := EmitFields(members, buf + NestedClassHeader(name), name);
    ObjectStep(members, parent, buf, r);
    if MembersTypable(members) {
      InferObject(members, parent);
      var c := ClassSpec(name, SynthesizeFields(members, name));
      ConcatAssoc(buf, NestedClassHeader(name), RenderFields(c.fields), NestedClassFooter);
    }
  }

  lemma ConcatAssoc<T>(a: seq<T>, b: seq<T>, c: seq<T>, d: seq<T>)
    ensures a + b + c + d == a + (b + c + d)
  {
  }

  /** The descriptor of an object and the lines it stands for. */
  lemma InferObject(members: seq<Member>, parent: string)
    requires |members| > 0 && |members[0].key| > 0 && MembersTypable(members)
    ensures var name := parent + CapitalizeFirstLetter(members[0].key);
            var c := ClassSpec(name, SynthesizeFields(members, name));
            && Typable(Object(members))
            && Infer(Object(members), parent) == ClassRef(c)
            && TypeName(ClassRef(c)) == name
            && RenderNested(ClassRef(c)) == NestedClassHeader(name) + RenderFields(c.fields) + NestedClassFooter
  {
  }

  /** How an object's result follows from the walk over its members. */
  lemma ObjectStep(members: seq<Member>, parent: string, buf: Buffer, body: Result<Buffer, Fault>)
    requires |members| > 0 && |members[0].key| > 0
    requires var name := parent + CapitalizeFirstLetter(members[0].key);
             body == EmitFields(members, buf + NestedClassHeader(name), name)
    ensures body.Failure? ==> DetermineFieldType(Object(members), parent, buf) == Failure(body.error)
    ensures body.Success? ==>
              DetermineFieldType(Object(members), parent, buf)
              == Success(Typed(parent + CapitalizeFirstLetter(members[0].key), body.value + NestedClassFooter))
  {
  }

  lemma {:induction false} EmitFieldsMatchesTree(members: seq<Member>, buf: Buffer, parent: string)
    ensures MembersTypable(members) ==>
              EmitFields(members, buf, parent) == Success(buf + RenderFields(SynthesizeFields(members, parent)))
    ensures !MembersTypable(members) ==> EmitFields(members, buf, parent).Failure?
    decreases members
  {
    if |members| > 0 {
      var m := members[0];
      DetermineFieldTypeMatchesTree(m.value, parent, buf);
      MembersTypableUncons(members);
      if Typable(m.value) {
        var t := Infer(m.value, parent);
        var next := buf + RenderNested(t) + FieldLines(m.key, TypeName(t));
        EmitFieldsMatchesTree(members[1..], next, parent);
        EmitFieldsStep(members, buf, parent, t);
        if MembersTypable(members) {
          RenderFirstField(members, buf, parent);
        }
      }
    } else {
      assert buf + [] == buf;
    }
  }

  /** Once the head's type is known, the walk continues on the tail. */
  lemma EmitFieldsStep(members: seq<Member>, buf: Buffer, parent: string, t: TypeDesc)
    requires |members| > 0
    requires DetermineFieldType(members[0].value, parent, buf)
             == Success(Typed(TypeName(t), buf + RenderNested(t)))
    ensures EmitFields(members, buf, parent)
            == EmitFields(members[1..], buf + RenderNested(t) + FieldLines(members[0].key, TypeName(t)), parent)
  {
  }

  /** The layout of a field list starts with the layout of its first field. */
  lemma RenderFirstField(members: seq<Member>, buf: Buffer, parent: string)
    requires |members| > 0
    requires MembersTypable(members)
    ensures MembersTypable(members[1..])
    ensures var t := Infer(members[0].value, parent);
            buf + RenderFields(SynthesizeFields(members, parent))
            == buf + RenderNested(t) + FieldLines(members[0].key, TypeName(t))
               + RenderFields(SynthesizeFields(members[1..], parent))
  {
    SynthesizeFieldsUncons(members, parent);
    var fs := SynthesizeFields(members, parent);
    assert fs[1..] == SynthesizeFields(members[1..], parent);
    assert RenderFields(fs) == RenderField(fs[0]) + RenderFields(fs[1..]);
  }

  /** `generatePojoFromJsonFile` produces, exactly when every member of the
      root's `fields()` is typable, the file header, the layout of the root
      class's fields and the closing brace; otherwise it throws. The root
      itself need not be typable. */
  lemma GenerateClassSourceMatchesTree(packageName: string, className: string, root: Value)
    ensures MembersTypable(Fields(root)) ==>
              GenerateClassSource(packageName, className, root)
              == Success(FileHeader(packageName, className)
                         + RenderFields(Synthesize(root, className).fields) + FileFooter)
    ensures !MembersTypable(Fields(root)) ==> GenerateClassSource(packageName, className, root).Failure?
  {
    EmitFieldsMatchesTree(Fields(root), FileHeader(packageName, className), className);
  }
}
