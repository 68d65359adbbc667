/** A concrete document, and the output the model is proved to give for it. */
module Examples {
  import opened Wrappers
  import opened Json
  import opened JavaSyntax
  import opened PojoGenerator

  /** A `marvelCharacters.json` document: one array of objects with a `name`
      and a list of `powers`. */
  function MarvelDocument(): Value {
    Object([
      Member("marvelCharacters", Array([
        Object([Member("name", Text("Iron Man")),
                Member("powers", Array([Text("Genius"), Text("Armor")]))]),
        Object([Member("name", Text("Thor")),
                Member("powers", Array([Text("Lightning")]))])
      ]))
    ])
  }

  /** The checked-in `MarvelCharacters.java`, line by line, grouped by the
      call that appends each group. */
  function MarvelSource(): seq<string> {
    [ "package org.Bairagi.dump.pojos;",
      "",
      "import com.fasterxml.jackson.annotation.JsonProperty;",
      "import lombok.*;",
      "import java.util.List;",
      "",
      "@Data",
      "@Builder",
      "@NoArgsConstructor",
      "@AllArgsConstructor",
      "public class MarvelCharacters {" ]
    + [ "    @Data",
        "    @Builder",
        "    @NoArgsConstructor",
        "    @AllArgsConstructor",
        "    public static class MarvelCharactersName {" ]
    + [ "    @JsonProperty(\"name\")",
        "    private String name;" ]
    + [ "    @JsonProperty(\"powers\")",
        "    private List<String> powers;" ]
    + [ "    }",
        "" ]
    + [ "    @JsonProperty(\"marvelCharacters\")",
        "    private List<MarvelCharactersName> marvelCharacters;" ]
    + [ "}" ]
  }

  /** The generator reproduces the checked-in file: the nested class is named
      `MarvelCharactersName`, after the first key inside the first array
      element, not after the field `marvelCharacters`. */
  lemma MarvelCharactersGenerated()
    ensures GenerateClassSource("org.Bairagi.dump.pojos", "MarvelCharacters", MarvelDocument())
            == Success(MarvelSource())
  {
    var name := "MarvelCharactersName";
    var header := FileHeader("org.Bairagi.dump.pojos", "MarvelCharacters");
    var doc := MarvelDocument();
    MarvelFieldType(header);
    var body := header + NestedClassHeader(name) + FieldLines("name", "String")
                + FieldLines("powers", "List<String>") + NestedClassFooter;
    assert EmitFields(doc.members, header, "MarvelCharacters")
           == EmitFields(doc.members[1..], body + FieldLines("marvelCharacters", "List<" + name + ">"), "MarvelCharacters");
    assert doc.members[1..] == [];
    MarvelLines();
  }

  /** The pieces the generator appends add up to the checked-in file. */
  lemma MarvelLines()
    ensures var name := "MarvelCharactersName";
            FileHeader("org.Bairagi.dump.pojos", "MarvelCharacters") + NestedClassHeader(name)
            + FieldLines("name", "String") + FieldLines("powers", "List<String>") + NestedClassFooter
            + FieldLines("marvelCharacters", "List<" + name + ">") + FileFooter
            == MarvelSource()
  {
    MarvelFileHeader();
    MarvelNestedHeader();
    NameFieldLines();
    PowersFieldLines();
    CharactersFieldLines();
    assert "List<" + "MarvelCharactersName" + ">" == "List<MarvelCharactersName>";
  }

  lemma MarvelFileHeader()
    ensures FileHeader("org.Bairagi.dump.pojos", "MarvelCharacters")
            == [ "package org.Bairagi.dump.pojos;",
                 "",
                 "import com.fasterxml.jackson.annotation.JsonProperty;",
                 "import lombok.*;",
                 "import java.util.List;",
                 "",
                 "@Data",
                 "@Builder",
                 "@NoArgsConstructor",
                 "@AllArgsConstructor",
                 "public class MarvelCharacters {" ]
  {
    assert "package " + "org.Bairagi.dump.pojos" + ";" == "package org.Bairagi.dump.pojos;";
    assert "public class " + "MarvelCharacters" + " {" == "public class MarvelCharacters {";
  }

  lemma MarvelNestedHeader()
    ensures NestedClassHeader("MarvelCharactersName")
            == [ "    @Data",
                 "    @Builder",
                 "    @NoArgsConstructor",
                 "    @AllArgsConstructor",
                 "    public static class MarvelCharactersName {" ]
  {
    assert NestedClassLine("MarvelCharactersName") == "    public static class MarvelCharactersName {";
  }

  /** The annotation and declaration of field `name`. */
  lemma NameFieldLines()
    ensures FieldLines("name", "String")
            == [ "    @JsonProperty(\"name\")", "    private String name;" ]
  {
    assert PropertyLine("name") == "    @JsonProperty(\"name\")";
    assert DeclarationLine("String", "name") == "    private String name;";
  }

  /** The annotation and declaration of field `powers`. */
  lemma PowersFieldLines()
    ensures FieldLines("powers", "List<String>")
            == [ "    @JsonProperty(\"powers\")", "    private List<String> powers;" ]
  {
    assert PropertyLine("powers") == "    @JsonProperty(\"powers\")";
    assert DeclarationLine("List<String>", "powers") == "    private List<String> powers;";
  }

  /** The annotation and declaration of field `marvelCharacters`, whose type
      names the nested class. */
  lemma CharactersFieldLines()
    ensures FieldLines("marvelCharacters", "List<MarvelCharactersName>")
            == [ "    @JsonProperty(\"marvelCharacters\")",
                 "    private List<MarvelCharactersName> marvelCharacters;" ]
  {
    assert PropertyLine("marvelCharacters") == "    @JsonProperty(\"marvelCharacters\")";
    CharactersDeclaration();
  }

  /** The declaration line, one append at a time. */
  lemma CharactersDeclaration()
    ensures DeclarationLine("List<MarvelCharactersName>", "marvelCharacters")
            == "    private List<MarvelCharactersName> marvelCharacters;"
  {
    assert "    private " + "List<MarvelCharactersName>" == "    private List<MarvelCharactersName>";
    assert "    private List<MarvelCharactersName>" + " " == "    private List<MarvelCharactersName> ";
    assert "    private List<MarvelCharactersName> " + "marvelCharacters"
           == "    private List<MarvelCharactersName> marvelCharacters";
    assert "    private List<MarvelCharactersName> marvelCharacters" + ";"
           == "    private List<MarvelCharactersName> marvelCharacters;";
  }

  /** The `marvelCharacters` field: the nested class is declared, then the
      field is typed as a list of it. */
  lemma MarvelFieldType(buf: Buffer)
    ensures var name := "MarvelCharactersName";
            DetermineFieldType(MarvelDocument().members[0].value, "MarvelCharacters", buf)
            == Success(Typed("List<" + name + ">",
                             buf + NestedClassHeader(name) + FieldLines("name", "String")
                             + FieldLines("powers", "List<String>") + NestedClassFooter))
  {
    var name := "MarvelCharactersName";
    assert "MarvelCharacters" + Naming.CapitalizeFirstLetter("name") == name;
    var element := MarvelDocument().members[0].value.elems[0].members;
    var b0 := buf + NestedClassHeader(name);
    MarvelElementFields(element, b0, name);
  }

  lemma MarvelElementFields(element: seq<Member>, b0: Buffer, name: string)
    requires element == [Member("name", Text("Iron Man")),
                         Member("powers", Array([Text("Genius"), Text("Armor")]))]
    ensures EmitFields(element, b0, name)
            == Success(b0 + FieldLines("name", "String") + FieldLines("powers", "List<String>"))
  {
    var b1 := b0 + FieldLines("name", "String");
    assert EmitFields(element, b0, name) == EmitFields(element[1..], b1, name);
    assert DetermineFieldType(element[1].value.elems[0], name, b1) == Success(Typed("String", b1));
    assert "List<" + "String" + ">" == "List<String>";
    assert DetermineFieldType(element[1].value, name, b1) == Success(Typed("List<String>", b1));
    var b2 := b1 + FieldLines("powers", "List<String>");
    assert EmitFields(element[1..], b1, name) == EmitFields(element[2..], b2, name);
  }
}
