/** The generator's layout of a class tree: before a field's two lines come
    the nested class its type needs, in full; a nested class is its header,
    the rendering of its own fields and its footer. */
module Render {
  import opened Schema
  import opened JavaSyntax

  /** The nested class declared for a field of type `t`, if any. */
  function RenderNested(t: TypeDesc): seq<string>
    decreases t
  {
    match t
    case Prim(_) => []
    case ListOf(e) => RenderNested(e)
    case ClassRef(c) => RenderClass(c)
  }

  function RenderClass(c: ClassSpec): seq<string>
    decreases c
  {
    NestedClassHeader(c.name) + RenderFields(c.fields) + NestedClassFooter
  }

  function RenderField(f: FieldSpec): seq<string>
    decreases f
  {
    RenderNested(f.typ) + FieldLines(f.name, TypeName(f.typ))
  }

  function RenderFields(fs: seq<FieldSpec>): seq<string>
    decreases fs
  {
    if |fs| == 0 then [] else RenderField(fs[0]) + RenderFields(fs[1..])
  }

  /** The rendering of a field list is the renderings of its fields, one after
      the other: splitting the list anywhere splits the lines there. */
  lemma {:induction false} RenderFieldsSplit(fs: seq<FieldSpec>, i: int)
    requires 0 <= i < |fs|
    ensures RenderFields(fs) == RenderFields(fs[..i]) + RenderField(fs[i]) + RenderFields(fs[i + 1..])
    decreases i
  {
    if i == 0 {
      assert fs[..0] == [];
    } else {
      RenderFieldsSplit(fs[1..], i - 1);
      assert fs[1..][..i - 1] == fs[..i][1..];
      assert fs[1..][i - 1] == fs[i];
      assert fs[1..][i..] == fs[i + 1..];
    }
  }
}
