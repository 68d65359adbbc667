/** What the generated class body looks like, stated over the generator as
    written, by way of the class tree. */
module Properties {
  import opened Wrappers
  import opened Json
  import opened Naming
  import opened JavaSyntax
  import opened PojoGenerator
  import opened Schema
  import opened Render
  import opened Correspondence

  /** An array is typed by its first element alone: the walk fails when that
      element's walk fails, and otherwise wraps its type in `List<...>` and
      keeps the buffer it left. */
  lemma ArrayTypedByFirstElement(elems: seq<Value>, parent: string, buf: Buffer)
    requires |elems| > 0
    ensures var first := DetermineFieldType(elems[0], parent, buf);
            var r := DetermineFieldType(Array(elems), parent, buf);
            && (first.Failure? ==> r == Failure(first.error))
            && (first.Success? ==> r == Success(Typed("List<" + first.value.typeName + ">", first.value.buf)))
  {
  }

  /** Later array elements never matter, not even when they could not be
      typed themselves. */
  lemma LaterElementsIgnored(first: Value, rest1: seq<Value>, rest2: seq<Value>, parent: string, buf: Buffer)
    ensures DetermineFieldType(Array([first] + rest1), parent, buf)
            == DetermineFieldType(Array([first] + rest2), parent, buf)
  {
    assert ([first] + rest1)[0] == first;
    assert ([first] + rest2)[0] == first;
  }

  /** For every member `i` of a typable object, its segment of the output
      starts right after the segments of the members before it, holds the
      nested class its type needs, then `@JsonProperty("<key>")`, then the
      declaration of a field named after the same key. The next member's
      segment starts right after it, so the segments of all members, in key
      order, fill the output after `buf`. */
  lemma {:induction false} FieldDeclarationsInKeyOrder(members: seq<Member>, buf: Buffer, parent: string, i: int)
    requires MembersTypable(members)
    requires 0 <= i < |members|
    ensures EmitFields(members, buf, parent).Success?
    ensures var out := EmitFields(members, buf, parent).value;
            var fs := SynthesizeFields(members, parent);
            var t := Infer(members[i].value, parent);
            var start := |buf| + |RenderFields(fs[..i])|;
            var decl := start + |RenderNested(t)|;
            && |out| == |buf| + |RenderFields(fs)|
            && decl + 2 == |buf| + |RenderFields(fs[..i + 1])|
            && decl + 2 <= |out|
            && out[start..decl] == RenderNested(t)
            && out[decl] == PropertyLine(members[i].key)
            && out[decl + 1] == DeclarationLine(TypeName(t), members[i].key)
  {
    EmitFieldsMatchesTree(members, buf, parent);
    var fs := SynthesizeFields(members, parent);
    assert EmitFields(members, buf, parent).value == buf + RenderFields(fs);
    assert fs[i] == FieldSpec(members[i].key, Infer(members[i].value, parent));
    FieldSegment(buf, fs, i);
  }

  /** The same layout, read off the rendering of a field list. */
  lemma FieldSegment(buf: Buffer, fs: seq<FieldSpec>, i: int)
    requires 0 <= i < |fs|
    ensures var out := buf + RenderFields(fs);
            var t := fs[i].typ;
            var start := |buf| + |RenderFields(fs[..i])|;
            var decl := start + |RenderNested(t)|;
            && decl + 2 == |buf| + |RenderFields(fs[..i + 1])|
            && decl + 2 <= |out|
            && out[start..decl] == RenderNested(t)
            && out[decl] == PropertyLine(fs[i].name)
            && out[decl + 1] == DeclarationLine(TypeName(t), fs[i].name)
  {
    RenderFieldsSplit(fs, i);
    var t := fs[i].typ;
    var lines := FieldLines(fs[i].name, TypeName(t));
    SegmentAt(buf, RenderFields(fs[..i]), RenderNested(t), lines, RenderFields(fs[i + 1..]));
    RenderFieldsSplit(fs[..i + 1], i);
    assert fs[..i + 1][..i] == fs[..i];
    assert fs[..i + 1][i + 1..] == [];
  }

  /** Where the pieces of a concatenation sit. */
  lemma SegmentAt<T>(a: seq<T>, b: seq<T>, c: seq<T>, d: seq<T>, e: seq<T>)
    requires |d| == 2
    ensures var out := a + (b + (c + d) + e);
            var start := |a| + |b|;
            && |out| == |a| + |b| + |c| + 2 + |e|
            && out[start..start + |c|] == c
            && out[start + |c|] == d[0]
            && out[start + |c| + 1] == d[1]
  {
    var out := a + (b + (c + d) + e);
    assert out == (a + b) + c + d + e;
  }

  /** The value whose type decides a field's nested class: arrays are looked
      through via their first element. */
  function Innermost(v: Value): (w: Value)
    requires Typable(v)
    ensures Typable(w) && !w.Array?
    decreases v
  {
    if v.Array? then Innermost(v.elems[0]) else v
  }

  /** A field's nested class is the one of its innermost value: an array of
      objects is named after the first key of its first element. */
  lemma {:induction false} NestedClassOfInnermost(v: Value, parent: string)
    requires Typable(v)
    ensures RenderNested(Infer(v, parent)) == RenderNested(Infer(Innermost(v), parent))
    decreases v
  {
    if v.Array? {
      NestedClassOfInnermost(v.elems[0], parent);
    }
  }

  /** When member `i` holds an object, or arrays whose first elements lead to
      one, the whole nested class comes right before the member's annotation:
      it is named after the parent and the first key of that object, and its
      body is the synthesis of that object's own members under that name,
      their nested classes included. */
  lemma NestedClassPrecedesField(members: seq<Member>, buf: Buffer, parent: string, i: int)
    requires MembersTypable(members)
    requires 0 <= i < |members|
    requires Innermost(members[i].value).Object?
    ensures EmitFields(members, buf, parent).Success?
    ensures var out := EmitFields(members, buf, parent).value;
            var inner := Innermost(members[i].value).members;
            var name := parent + CapitalizeFirstLetter(inner[0].key);
            var start := |buf| + |RenderFields(SynthesizeFields(members, parent)[..i])|;
            var lines := NestedClassHeader(name) + RenderFields(SynthesizeFields(inner, name)) + NestedClassFooter;
            && start + |lines| + 2 <= |out|
            && out[start..start + |lines|] == lines
            && out[start + |lines|] == PropertyLine(members[i].key)
  {
    var inner := Innermost(members[i].value).members;
    var name := parent + CapitalizeFirstLetter(inner[0].key);
    var lines := NestedClassHeader(name) + RenderFields(SynthesizeFields(inner, name)) + NestedClassFooter;
    InnermostClassLines(members[i].value, parent);
    assert RenderNested(Infer(members[i].value, parent)) == lines;
    FieldDeclarationsInKeyOrder(members, buf, parent, i);
  }

  /** The lines a field holding `v` is preceded by, when `v` leads to an
      object: the nested class named after that object's first key. */
  lemma InnermostClassLines(v: Value, parent: string)
    requires Typable(v)
    requires Innermost(v).Object?
    ensures var inner := Innermost(v).members;
            var name := parent + CapitalizeFirstLetter(inner[0].key);
            RenderNested(Infer(v, parent))
            == NestedClassHeader(name) + RenderFields(SynthesizeFields(inner, name)) + NestedClassFooter
  {
    var w := Innermost(v);
    NestedClassOfInnermost(v, parent);
    InferObject(w.members, parent);
  }

  /** The walk over an object's members, started on an empty buffer, is the
      body of that object's nested class. */
  lemma NestedClassBodyIsWalk(members: seq<Member>, name: string)
    requires MembersTypable(members)
    ensures EmitFields(members, [], name) == Success(RenderFields(SynthesizeFields(members, name)))
  {
    EmitFieldsMatchesTree(members, [], name);
    assert [] + RenderFields(SynthesizeFields(members, name)) == RenderFields(SynthesizeFields(members, name));
  }

  /** Two sibling members holding objects with the same first key get nested
      classes of the same name: the output declares that class twice, the
      first declaration before the second, and nothing tells them apart. */
  lemma SiblingClassNamesCollide(members: seq<Member>, buf: Buffer, parent: string, i: int, j: int)
    requires MembersTypable(members)
    requires 0 <= i < j < |members|
    requires members[i].value.Object? && |members[i].value.members| > 0
    requires members[j].value.Object? && |members[j].value.members| > 0
    requires members[i].value.members[0].key == members[j].value.members[0].key
    ensures EmitFields(members, buf, parent).Success?
    ensures var out := EmitFields(members, buf, parent).value;
            var fs := SynthesizeFields(members, parent);
            var name := parent + CapitalizeFirstLetter(members[i].value.members[0].key);
            var p := |buf| + |RenderFields(fs[..i])| + NestedClassLineOffset();
            var q := |buf| + |RenderFields(fs[..j])| + NestedClassLineOffset();
            && |buf| <= p < q < |out|
            && out[p] == NestedClassLine(name)
            && out[q] == NestedClassLine(name)
  {
    ClassLineAt(members, buf, parent, i);
    ClassLineAt(members, buf, parent, j);
    RenderedPrefixGrows(SynthesizeFields(members, parent), i, j);
  }

  /** Where the declaration line of member `i`'s nested class sits. */
  lemma ClassLineAt(members: seq<Member>, buf: Buffer, parent: string, i: int)
    requires MembersTypable(members)
    requires 0 <= i < |members|
    requires members[i].value.Object?
    ensures EmitFields(members, buf, parent).Success?
    ensures var out := EmitFields(members, buf, parent).value;
            var fs := SynthesizeFields(members, parent);
            var p := |buf| + |RenderFields(fs[..i])| + NestedClassLineOffset();
            && |members[i].value.members| > 0
            && p < |out|
            && out[p] == NestedClassLine(parent + CapitalizeFirstLetter(members[i].value.members[0].key))
  {
    var v := members[i].value;
    FieldDeclarationsInKeyOrder(members, buf, parent, i);
    var out := EmitFields(members, buf, parent).value;
    var start := |buf| + |RenderFields(SynthesizeFields(members, parent)[..i])|;
    var t := Infer(v, parent);
    var lines := RenderNested(t);
    assert lines == NestedClassHeader(t.spec.name) + RenderFields(t.spec.fields) + NestedClassFooter;
    var k := NestedClassLineOffset();
    assert lines[k] == NestedClassLine(t.spec.name);
    assert out[start + k] == out[start..start + |lines|][k];
  }

  /** The lines of the members before `j` extend those before `i < j` by at
      least one line. */
  lemma RenderedPrefixGrows(fs: seq<FieldSpec>, i: int, j: int)
    requires 0 <= i < j <= |fs|
    ensures |RenderFields(fs[..i])| < |RenderFields(fs[..j])|
  {
    RenderFieldsSplit(fs[..j], i);
    assert fs[..j][..i] == fs[..i];
  }

  /** A document whose root is not an object gives a class with no fields:
      Jackson's `fields()` is empty there. */
  lemma NonObjectRootHasNoFields(packageName: string, className: string, root: Value)
    requires !root.Object?
    ensures GenerateClassSource(packageName, className, root)
            == Success(FileHeader(packageName, className) + FileFooter)
  {
  }

  /** The caller names the root class, so the first-key rules that make a
      nested object throw do not apply at the root: `{}` and `{"": 1}` would
      throw as field values, yet as roots they give a file. */
  lemma RootNeedsNoFirstKey(packageName: string, className: string)
    ensures !Typable(Object([]))
    ensures GenerateClassSource(packageName, className, Object([]))
            == Success(FileHeader(packageName, className) + FileFooter)
    ensures var root := Object([Member("", Int(1))]);
            && !Typable(root)
            && GenerateClassSource(packageName, className, root)
               == Success(FileHeader(packageName, className) + FieldLines("", "int") + FileFooter)
  {
  }

  /** Later array elements are never read, so an empty array or object there
      does not throw. */
  lemma EmptyLaterElementsDoNotThrow(parent: string, buf: Buffer)
    ensures DetermineFieldType(Array([Int(1), Array([])]), parent, buf) == Success(Typed("List<int>", buf))
    ensures DetermineFieldType(Array([Text("x"), Object([])]), parent, buf) == Success(Typed("List<String>", buf))
  {
    assert "List<" + "int" + ">" == "List<int>";
    assert "List<" + "String" + ">" == "List<String>";
  }
}
