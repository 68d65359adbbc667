# JSON-to-POJO class synthesis, modelled in Dafny

The modelled code is the core of `JsonToPojoUtil`. It walks a parsed JSON
document and writes a Java source file. That file holds one Lombok-annotated
class for the root and one nested class per object the walk visits, each with
one `@JsonProperty` field per key of its object. The walk visits only the
first element of an array, so objects in later elements get no class and
their keys get no field. The model covers these parts:

- **Type inference** (`determineFieldType`). Text is `String`, int and long
  are `int`, booleans are `boolean` and doubles are `double`. An array is
  `List<T>`, where `T` comes from its first element only. An object becomes a
  nested `public static class`. Anything else (null, big integers, decimals,
  …) is `String`.
- **Class synthesis** (`generateFieldsAndInnerClasses`). For each key, in
  iteration order, the walk first emits any nested class the key's type needs.
  It then emits `@JsonProperty("<key>")` and `private <type> <key>;`.
- **Nested class naming.** A nested class is named
  `parentClassName + capitalizeFirstLetter(first key inside the nested object)`.
  The outer field's name plays no part.
- **Identifier helpers**: `capitalizeFirstLetter` and `toCamelCase`.

The project holds two views of the walk, and proves they agree:

- `PojoGenerator` follows the code as written. It threads one line buffer
  through every call, the way the Java code threads its `StringBuilder`.
  Java's runtime exceptions become a `Failure`:
  - `NoSuchElement` when `next()` is called on an empty array or an empty
    object;
  - `StringIndexOutOfBounds` when `substring(0, 1)` is called on an empty key.
- `Schema` is a pure tree of class descriptions built by `Infer` and
  `Synthesize`. `Render` lays that tree out as the generator's lines.

`Correspondence` proves two things. First, a field value goes through the
walk exactly when `Schema.Typable` accepts it, and a whole file is generated
exactly when every member of the root's `fields()` is typable
(`Schema.MembersTypable(Json.Fields(root))`). The root itself need not be
typable: the caller names the root class, so the first-key rules never apply
to it (`Properties.RootNeedsNoFirstKey`). Second, when the walk succeeds, its
buffer is the tree's layout. `Properties` uses this to state what the output looks
like.

The buffer is modelled as a sequence of lines. The file's text is each line
followed by `"\n"`. For example, `"    }\n\n"` is the two lines `"    }"` and
`""`.

Modules, one per file: `Wrappers`, `Json`, `Naming`, `JavaSyntax`,
`PojoGenerator`, `Schema`, `Render`, `Correspondence`, `Properties`,
`Examples`.

The model keeps these behaviours of the code:

- Nested class names use the first key *inside* the nested object, not the
  outer field name. The checked-in `MarvelCharacters.java` confirms this, and
  `Examples.MarvelCharactersGenerated` reproduces that file line for line.
- An empty array, an empty object or an empty first key throws a runtime
  exception when it is a field value, or is reached inside one through object
  members and first array elements. Later array elements are never read, so
  `[1, []]` is typed `List<int>` without throwing. There is no error
  value; the exception propagates. At the root, an empty object or an empty
  first key does not throw.
- Two sibling classes with the same name are emitted twice. There is no
  collision error (`Properties.SiblingClassNamesCollide`).
- There is no recursion depth bound.
- A long value is typed `int`, and this narrowing is kept.
- A root that is not an object does not fail. Jackson's `fields()` is empty
  for such a root, so the result is a class with no fields
  (`Properties.NonObjectRootHasNoFields`).

## Model

| member | source | states |
|---|---|---|
| Naming.CapitalizeFirstLetter | src/main/java/org/Bairagi/dump/JsonToPojoUtil.java:140-142 | Needs a non-empty string (`substring(0, 1)` throws on ""). Keeps the length, upper-cases the first character and leaves the rest unchanged. |
| Naming.CamelCase | src/main/java/org/Bairagi/dump/JsonToPojoUtil.java:145-161 | From any point in the loop, the output is the input length minus the number of `_`, `-` and space separators, and contains no separator. |
| Naming.ToCamelCase | src/main/java/org/Bairagi/dump/JsonToPojoUtil.java:145-161 | The character loop with its `nextUpperCase` flag returns exactly `CamelCase(fileName, true)`. So it inherits that function's length and no-separator guarantees and the positions stated by `CamelCasePositions`. |
| Naming.CamelCasePositions | src/main/java/org/Bairagi/dump/JsonToPojoUtil.java:149-158 | A kept character at index i lands at i minus the separators before it. It is upper-cased exactly when it is first (flag up) or follows a separator; otherwise it is unchanged. Kept characters stay in order. |
| Naming.CamelCaseIdempotent | src/main/java/org/Bairagi/dump/JsonToPojoUtil.java:145-161 | Applying `toCamelCase` to its own output changes nothing. |
| Naming.CamelCaseCapitalizes | src/main/java/org/Bairagi/dump/JsonToPojoUtil.java:140-161 | In this model, where both helpers upper-case with the same ASCII mapping, `toCamelCase` and `capitalizeFirstLetter` agree on a non-empty string without separators. |
| PojoGenerator.DetermineFieldType | src/main/java/org/Bairagi/dump/JsonToPojoUtil.java:109-137 | Text and unrecognised nodes are `String`, int and long are `int`, boolean is `boolean`, double is `double`; none of these touch the buffer. An empty array or object throws NoSuchElement; an empty first key throws StringIndexOutOfBounds. For an object, the returned name is `parent + capitalize(first inner key)`; the buffer gains that class's header and ends with its closing lines. The buffer is only ever appended to. |
| PojoGenerator.EmitFields | src/main/java/org/Bairagi/dump/JsonToPojoUtil.java:94-105 | The field loop only appends to the buffer. With no members left it leaves the buffer as it is. |
| PojoGenerator.GenerateFieldsAndInnerClasses | src/main/java/org/Bairagi/dump/JsonToPojoUtil.java:93-106 | A node that is not an object adds nothing. Otherwise the buffer is only appended to. |
| PojoGenerator.GenerateClassSource | src/main/java/org/Bairagi/dump/JsonToPojoUtil.java:56-74 | A generated file starts with the package, import and Lombok-annotated class header lines and ends with `}`. |
| Schema.Infer | src/main/java/org/Bairagi/dump/JsonToPojoUtil.java:109-137 | Each value kind maps to its fixed descriptor; arrays become lists and objects become class references, and nothing else does. A list's element type is the type of the array's first element. A nested class is named `parent + capitalize(first inner key)` and has one field per inner key. |
| Schema.SynthesizeFields | src/main/java/org/Bairagi/dump/JsonToPojoUtil.java:94-105 | One field per member, in iteration order. Each field is named after its key and typed by inference in the enclosing class. |
| Schema.Synthesize | src/main/java/org/Bairagi/dump/JsonToPojoUtil.java:69-74 | The root class carries the requested name and one field per root key, in order. |
| Correspondence.DetermineFieldTypeMatchesTree | src/main/java/org/Bairagi/dump/JsonToPojoUtil.java:109-137 | On a typable value, the walk returns the inferred type's Java name and appends exactly the nested class layout of that type. On any other value it throws. |
| Correspondence.EmitFieldsMatchesTree | src/main/java/org/Bairagi/dump/JsonToPojoUtil.java:93-106 | The field loop succeeds exactly when every member is typable. It then appends exactly the layout of the synthesized fields. |
| Correspondence.GenerateClassSourceMatchesTree | src/main/java/org/Bairagi/dump/JsonToPojoUtil.java:56-74 | The file is header + layout of the root class's fields + `}` exactly when every member of the root's `fields()` is typable (`MembersTypable(Fields(root))`), whether or not the root itself is. Otherwise generation throws. |
| Properties.ArrayTypedByFirstElement | src/main/java/org/Bairagi/dump/JsonToPojoUtil.java:118-122 | A non-empty array fails exactly as its first element does. Otherwise its type is `"List<" + element type + ">"` and the buffer is the one the element left. |
| Properties.LaterElementsIgnored | src/main/java/org/Bairagi/dump/JsonToPojoUtil.java:118-122 | Arrays with the same first element give the same result, whatever follows it, even elements that would throw. |
| Properties.EmptyLaterElementsDoNotThrow | src/main/java/org/Bairagi/dump/JsonToPojoUtil.java:118-122 | An empty array or object after the first element does not throw: `[1, []]` is `List<int>` and `["x", {}]` is `List<String>`, with the buffer unchanged. |
| Properties.FieldDeclarationsInKeyOrder | src/main/java/org/Bairagi/dump/JsonToPojoUtil.java:96-105 | For each member i, its segment starts after the segments of members 0..i-1. The segment holds the nested class its type needs, then `@JsonProperty("<key>")`, then `private <type> <key>;` with the same key. The next segment starts right after, and the n segments fill the output. |
| Properties.NestedClassPrecedesField | src/main/java/org/Bairagi/dump/JsonToPojoUtil.java:96-133 | For a member holding an object (possibly inside arrays, via first elements), the whole nested class comes right before its annotation. It is named `parent + capitalize(first inner key)`, and its body is the synthesis of the inner object under that name. |
| Properties.NestedClassBodyIsWalk | src/main/java/org/Bairagi/dump/JsonToPojoUtil.java:126-132 | The recursive walk over a nested object's members, started on an empty buffer, yields exactly the nested class body. |
| Properties.NestedClassOfInnermost | src/main/java/org/Bairagi/dump/JsonToPojoUtil.java:118-125 | An array field declares the nested class of its innermost first element, so an array of objects is named after the first key of its first element. |
| Properties.SiblingClassNamesCollide | src/main/java/org/Bairagi/dump/JsonToPojoUtil.java:123-130 | Two sibling objects with the same first key both emit `public static class <same name> {`, at two distinct, ordered lines. |
| Properties.RootNeedsNoFirstKey | src/main/java/org/Bairagi/dump/JsonToPojoUtil.java:69-74 | The roots `{}` and `{"": 1}` would throw as field values, but as roots they give a file: header and `}`, with the single field `private int ;` in the second case. |
| Properties.NonObjectRootHasNoFields | src/main/java/org/Bairagi/dump/JsonToPojoUtil.java:69-74 | A non-object root gives the file header directly followed by `}`. |
| Examples.MarvelCharactersGenerated | src/main/java/org/Bairagi/dump/pojos/MarvelCharacters.java:1-25 | For a `marvelCharacters` array of `{name, powers}` objects, the generator produces the checked-in file line for line. Its nested class is `MarvelCharactersName`. |

## Left out

- `generatePojoFromFolder` is not modelled: it lists a directory, filters `.json` names and loops over the files. That is file-system plumbing. The file-name-to-class-name step (`replace(".json", "")` and then `toCamelCase`) is covered only through `toCamelCase`.
- Parts of `generatePojoFromJsonFile` are not modelled: Jackson's `readTree`, directory creation, `FileWriter` and the `System.out` message are I/O. The model starts from a parsed `Json.Value` and ends with the file's lines.
- JSON parsing is not modelled. In particular, Jackson keeps only one entry when a key is duplicated. A member list is taken as given.
- `Json.Value.Double` carries a `real`, not an IEEE double. The generator never looks at the value.
- Short, float, decimal and big-integer nodes, null, missing, binary and POJO nodes all fall into one catch-all variant. They are all typed `String`.
- Naming.CapitalizeFirstLetter: upper-cases ASCII letters only. Java's locale- and Unicode-aware `String.toUpperCase` can map one character to several (e.g. `ß` to `SS`), so length preservation is claimed only for this ASCII model.
- Naming.CamelCase: upper-cases ASCII letters only. `Character.toUpperCase` maps other letters as well; the positional and length properties do not depend on which mapping is used.
- Naming.CamelCaseCapitalizes: the agreement holds only because the model gives both helpers the same ASCII `Upper`. The code upper-cases with two different mappings: `String.toUpperCase()` in `capitalizeFirstLetter` follows the default locale and can lengthen the string, and `Character.toUpperCase(char)` in `toCamelCase` maps one character to one. So the two disagree on `"ßa"` (`"SSa"` against `"ßa"`), and on `"id"` under a Turkish locale (`"İd"` against `"Id"`).
- Typed errors, name-collision detection and a depth limit are not modelled, because the code has none of them.
