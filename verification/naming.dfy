/** The two identifier helpers of the generator: `capitalizeFirstLetter`,
    used to build nested class names, and `toCamelCase`, used to turn a file
    name into a root class name. */
module Naming {

  /** The characters `toCamelCase` drops and treats as word breaks. */
  predicate IsSeparator(c: char) {
    c == '_' || c == '-' || c == ' '
  }

  /** ASCII stand-in for `Character.toUpperCase` / `String.toUpperCase`. */
  function Upper(c: char): (u: char)
    ensures u == c || ('a' <= c <= 'z' && 'A' <= u <= 'Z')
    ensures Upper(u) == u
    ensures IsSeparator(u) <==> IsSeparator(c)
  {
    if 'a' <= c <= 'z' then (c as int - 32) as char else c
  }

  /** `capitalizeFirstLetter`: upper-cases the first character. Java's
      `substring(0, 1)` throws on the empty string, hence the precondition. */
  function CapitalizeFirstLetter(s: string): (r: string)
    requires |s| >= 1
    ensures |r| == |s|
    ensures r[0] == Upper(s[0])
    ensures r[1..] == s[1..]
  {
    [Upper(s[0])] + s[1..]
  }

  /** Number of separator characters in `s`. */
  function SepCount(s: string): (n: nat)
    ensures n <= |s|
  {
    if |s| == 0 then 0
    else (if IsSeparator(s[0]) then 1 else 0) + SepCount(s[1..])
  }

  /** The meaning of the `toCamelCase` loop from some position on, given the
      current value of its `nextUpperCase` flag: separators are dropped and
      raise the flag; a kept character is upper-cased when the flag is up,
      which also lowers it. */
  function CamelCase(s: string, upperNext: bool): (r: string)
    ensures |r| == |s| - SepCount(s)
    ensures forall j :: 0 <= j < |r| ==> !IsSeparator(r[j])
    decreases |s|
  {
    if |s| == 0 then []
    else if IsSeparator(s[0]) then CamelCase(s[1..], true)
    else if upperNext then [Upper(s[0])] + CamelCase(s[1..], false)
    else [s[0]] + CamelCase(s[1..], false)
  }

  /** `toCamelCase`, written as the source's loop over the characters. */
  method ToCamelCase(fileName: string) returns (name: string)
    ensures name == CamelCase(fileName, true)
  {
    name := [];
    var nextUpperCase := true;
    var i := 0;
    while i < |fileName|
      invariant 0 <= i <= |fileName|
      invariant name + CamelCase(fileName[i..], nextUpperCase) == CamelCase(fileName, true)
    {
      var c := fileName[i];
      assert fileName[i..][1..] == fileName[i + 1..];
      if IsSeparator(c) {
        nextUpperCase := true;
      } else if nextUpperCase {
        name := name + [Upper(c)];
        nextUpperCase := false;
      } else {
        name := name + [c];
      }
      i := i + 1;
    }
    assert fileName[i..] == [];
  }

  /** Whether the loop upper-cases the kept character at index `i`: it is the
      first character and the flag starts up, or it follows a separator. */
  predicate UpperCasedAt(s: string, i: int, upperNext: bool)
    requires 0 <= i < |s|
  {
    (i == 0 && upperNext) || (i > 0 && IsSeparator(s[i - 1]))
  }

  lemma {:induction false} SepCountPrefixBound(s: string, i: int)
    requires 0 <= i < |s|
    requires !IsSeparator(s[i])
    ensures SepCount(s[..i]) + SepCount(s[i..]) == SepCount(s)
    ensures SepCount(s[i..]) < |s| - i
  {
    if i == 0 {
      assert s[..0] == [];
      assert s[0..] == s;
      assert SepCount(s[1..]) <= |s| - 1;
    } else {
      SepCountPrefixBound(s[1..], i - 1);
      assert s[1..][..i - 1] == s[..i][1..];
      assert s[1..][i - 1..] == s[i..];
    }
  }

  /** Every kept character lands in the output at its index minus the number
      of separators before it, upper-cased exactly when `UpperCasedAt` holds
      and unchanged otherwise. Together with the length in `CamelCase`'s
      contract this fixes the output completely. */
  lemma {:induction false} CamelCasePositions(s: string, upperNext: bool, i: int)
    requires 0 <= i < |s|
    requires !IsSeparator(s[i])
    ensures 0 <= i - SepCount(s[..i]) < |CamelCase(s, upperNext)|
    ensures CamelCase(s, upperNext)[i - SepCount(s[..i])]
            == (if UpperCasedAt(s, i, upperNext) then Upper(s[i]) else s[i])
    decreases |s|
  {
    SepCountPrefixBound(s, i);
    if i == 0 {
      assert s[..0] == [];
    } else {
      CamelCasePositions(s[1..], IsSeparator(s[0]), i - 1);
      assert s[1..][..i - 1] == s[..i][1..];
    }
  }

  /** On a string with no separators only the first character can change. */
  lemma {:induction false} CamelCaseSeparatorFree(t: string, upperNext: bool)
    requires forall j :: 0 <= j < |t| ==> !IsSeparator(t[j])
    ensures !upperNext ==> CamelCase(t, upperNext) == t
    ensures upperNext && |t| > 0 ==> CamelCase(t, upperNext) == [Upper(t[0])] + t[1..]
    decreases |t|
  {
    if |t| > 0 {
      CamelCaseSeparatorFree(t[1..], false);
    }
  }

  /** The first character `toCamelCase` produces is already upper case. */
  lemma {:induction false} CamelCaseHeadIsUpper(s: string)
    requires |CamelCase(s, true)| > 0
    ensures Upper(CamelCase(s, true)[0]) == CamelCase(s, true)[0]
    decreases |s|
  {
    if IsSeparator(s[0]) {
      CamelCaseHeadIsUpper(s[1..]);
    }
  }

  /** Applying `toCamelCase` to its own output changes nothing. */
  lemma {:induction false} CamelCaseIdempotent(s: string)
    ensures CamelCase(CamelCase(s, true), true) == CamelCase(s, true)
  {
    var t := CamelCase(s, true);
    CamelCaseSeparatorFree(t, true);
    if |t| > 0 {
      CamelCaseHeadIsUpper(s);
      assert [t[0]] + t[1..] == t;
    }
  }

  /** On a non-empty string without separators `toCamelCase` and
      `capitalizeFirstLetter` agree, with the shared ASCII `Upper`. */
  lemma {:induction false} CamelCaseCapitalizes(s: string)
    requires |s| >= 1
    requires forall j :: 0 <= j < |s| ==> !IsSeparator(s[j])
    ensures CamelCase(s, true) == CapitalizeFirstLetter(s)
  {
    CamelCaseSeparatorFree(s, true);
  }
}
