/** The fixed pieces of Java text the generator appends to its buffer. The
    buffer is modelled as a sequence of lines: its text is every line followed
    by a newline, so `"    }\n\n"` is the two lines `"    }"` and `""`. */
module JavaSyntax {

  /** Lines opening the generated file, up to the root class header. */
  function FileHeader(packageName: string, className: string): seq<string> {
    [ "package " + packageName + ";",
      "",
      "import com.fasterxml.jackson.annotation.JsonProperty;",
      "import lombok.*;",
      "import java.util.List;",
      "",
      "@Data",
      "@Builder",
      "@NoArgsConstructor",
      "@AllArgsConstructor",
      "public class " + className + " {" ]
  }

  /** The line closing the root class. */
  const FileFooter: seq<string> := ["}"]

  /** The line declaring a nested class. */
  function NestedClassLine(name: string): string {
    "    public static class " + name + " {"
  }

  /** Lines opening a nested class: four Lombok annotations and the
      declaration line. */
  function NestedClassHeader(name: string): seq<string> {
    [ "    @Data",
      "    @Builder",
      "    @NoArgsConstructor",
      "    @AllArgsConstructor",
      NestedClassLine(name) ]
  }

  /** Where the declaration line sits in a nested class header, after the
      Lombok annotations. */
  function NestedClassLineOffset(): (k: nat)
    ensures forall name :: k < |NestedClassHeader(name)| && NestedClassHeader(name)[k] == NestedClassLine(name)
  {
    4
  }

  /** Lines closing a nested class. */
  const NestedClassFooter: seq<string> := ["    }", ""]

  /** The annotation mapping a field to its JSON key. */
  function PropertyLine(key: string): string {
    "    @JsonProperty(\"" + key + "\")"
  }

  /** The field declaration; the field is named after the key verbatim. */
  function DeclarationLine(typeName: string, key: string): string {
    "    private " + typeName + " " + key + ";"
  }

  /** The two lines emitted for one object member. */
  function FieldLines(key: string, typeName: string): seq<string> {
    [PropertyLine(key), DeclarationLine(typeName, key)]
  }
}
