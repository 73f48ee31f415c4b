/** The camelCase rewrites of src/util.ts: kebab-case, Title Case and field anchors. */
module CaseHelpers {
  import opened JsString

  /** A lower-case ASCII letter at `i - 1` followed by an upper-case one at `i`. */
  predicate Boundary(s: string, i: int) {
    0 < i < |s| && IsAsciiLower(s[i - 1]) && IsAsciiUpper(s[i])
  }

  /** `s.replace(/([a-z])([A-Z])/g, "$1" + sep + "$2")`: the global regex scan goes left to
      right and resumes after each two-character match. */
  function InsertSeparators(s: string, sep: char): string
    decreases |s|
  {
    if |s| < 2 then s
    else if IsAsciiLower(s[0]) && IsAsciiUpper(s[1]) then [s[0], sep, s[1]] + InsertSeparators(s[2..], sep)
    else [s[0]] + InsertSeparators(s[1..], sep)
  }

  /** Reference reading: every character is copied, and one separator goes in front of each
      character that ends a lower-to-upper boundary. */
  function SeparateBoundaries(s: string, sep: char): string
    decreases |s|
  {
    if |s| == 0 then ""
    else [s[0]] + (if Boundary(s, 1) then [sep] else []) + SeparateBoundaries(s[1..], sep)
  }

  /** The regex scan misses no boundary, although its matches may not overlap. */
  lemma {:induction false} InsertSeparatorsAtEveryBoundary(s: string, sep: char)
    ensures InsertSeparators(s, sep) == SeparateBoundaries(s, sep)
    decreases |s|
  {
    if |s| < 2 {
    } else if IsAsciiLower(s[0]) && IsAsciiUpper(s[1]) {
      InsertSeparatorsAtEveryBoundary(s[2..], sep);
      assert s[1..][1..] == s[2..];
      assert !Boundary(s[1..], 1);
    } else {
      InsertSeparatorsAtEveryBoundary(s[1..], sep);
    }
  }

  /** A string without upper-case ASCII letters has no boundary and is left alone. */
  lemma {:induction false} InsertSeparatorsWithoutUpper(s: string, sep: char)
    requires NoAsciiUpper(s)
    ensures InsertSeparators(s, sep) == s
    decreases |s|
  {
    if |s| >= 2 {
      assert NoAsciiUpper(s[1..]);
      InsertSeparatorsWithoutUpper(s[1..], sep);
    }
  }

  /** `toKebabCase`, src/util.ts:24-25. */
  function ToKebabCase(s: string): (r: string)
    ensures NoAsciiUpper(r)
  {
    ToLower(InsertSeparators(s, '-'))
  }

  lemma ToKebabCaseIdempotent(s: string)
    ensures ToKebabCase(ToKebabCase(s)) == ToKebabCase(s)
  {
    InsertSeparatorsWithoutUpper(ToKebabCase(s), '-');
    ToLowerIdempotent(InsertSeparators(s, '-'));
  }

  /** `toTitleCase`, src/util.ts:28-29. `/^./` does not match a leading line terminator, but
      upper-casing one is the identity, so the first character is always passed through
      `UpperChar`. */
  function ToTitleCase(s: string): (r: string)
    ensures |r| == |InsertSeparators(s, ' ')|
    ensures |r| > 0 ==> !IsAsciiLower(r[0]) && r[1..] == InsertSeparators(s, ' ')[1..]
    ensures |r| > 0 ==> r[0] == UpperChar(InsertSeparators(s, ' ')[0])
  {
    var spaced := InsertSeparators(s, ' ');
    if |spaced| == 0 then spaced else [UpperChar(spaced[0])] + spaced[1..]
  }

  predicate EndsWith(s: string, suffix: string) {
    |suffix| <= |s| && s[|s| - |suffix|..] == suffix
  }

  /** `.replace(/-?object$/, "")`: the leftmost match of the anchored pattern, so a preceding
      hyphen is removed together with `object` whenever there is one. */
  function StripObjectSuffix(s: string): (r: string)
    ensures EndsWith(s, "-object") ==> s == r + "-object"
    ensures !EndsWith(s, "-object") && EndsWith(s, "object") ==> s == r + "object"
    ensures !EndsWith(s, "object") ==> r == s
  {
    if EndsWith(s, "-object") then s[..|s| - 7]
    else if EndsWith(s, "object") then s[..|s| - 6]
    else s
  }

  /** `makeAnchor`, src/util.ts:32-38. */
  function MakeAnchor(schemaTitleRaw: string, fieldName: string): (r: string)
    ensures NoAsciiUpper(r)
    ensures r == StripObjectSuffix(ToKebabCase(schemaTitleRaw)) + "-" + ToKebabCase(fieldName)
  {
    var prefix := StripObjectSuffix(ToKebabCase(schemaTitleRaw));
    assert NoAsciiUpper(prefix) by {
      var k := ToKebabCase(schemaTitleRaw);
      assert forall i :: 0 <= i < |prefix| ==> prefix[i] == k[i];
    }
    prefix + "-" + ToKebabCase(fieldName)
  }

  predicate AllAsciiLower(s: string) { forall i :: 0 <= i < |s| ==> IsAsciiLower(s[i]) }

  /** One camelCase hump: a lower-case word followed by a capitalised word. */
  lemma {:induction false} InsertSeparatorsOneHump(a: string, b: string, sep: char)
    requires |a| > 0 && AllAsciiLower(a)
    requires |b| > 0 && IsAsciiUpper(b[0]) && NoAsciiUpper(b[1..])
    ensures InsertSeparators(a + b, sep) == a + [sep] + b
    decreases |a|
  {
    var s := a + b;
    assert s[0] == a[0];
    if |a| == 1 {
      assert s[1] == b[0] && s[2..] == b[1..];
      InsertSeparatorsWithoutUpper(b[1..], sep);
      assert InsertSeparators(s, sep) == [s[0], sep, s[1]] + InsertSeparators(s[2..], sep);
      assert a + [sep] + b == [a[0], sep, b[0]] + b[1..];
    } else {
      assert s[1] == a[1] && s[1..] == a[1..] + b;
      assert AllAsciiLower(a[1..]);
      InsertSeparatorsOneHump(a[1..], b, sep);
      assert InsertSeparators(s, sep) == [s[0]] + InsertSeparators(s[1..], sep);
      assert a + [sep] + b == [a[0]] + (a[1..] + [sep] + b);
    }
  }

  /** `toKebabCase` of one camelCase hump: the hyphen goes in, then everything is lowered. */
  lemma KebabOfOneHump(a: string, b: string, joined: string, spaced: string)
    requires |a| > 0 && AllAsciiLower(a)
    requires |b| > 0 && IsAsciiUpper(b[0]) && NoAsciiUpper(b[1..])
    requires joined == a + b && spaced == a + "-" + b
    ensures ToKebabCase(joined) == ToLower(spaced)
  {
    InsertSeparatorsOneHump(a, b, '-');
  }

  // The examples below take their strings as parameters: the verifier would otherwise try
  // to evaluate the string functions on the literals symbolically.

  lemma KebabOfMethodObject(s: string)
    requires s == "methodObject"
    ensures ToKebabCase(s) == "method-object"
  {
    KebabOfOneHump("method", "Object", s, "method-Object");
    var t := "method-Object";
    assert forall i :: 0 <= i < |t| ==> ToLower(t)[i] == "method-object"[i];
  }

  lemma ParamStructureIsOneHump(field: string)
    requires field == "paramStructure"
    ensures ToKebabCase(field) == ToLower("param-Structure")
  {
    KebabOfOneHump("param", "Structure", field, "param-Structure");
  }

  lemma LowerParamStructure(t: string)
    requires t == "param-Structure"
    ensures ToLower(t) == "param-structure"
  {
    assert forall i :: 0 <= i < |t| ==> ToLower(t)[i] == "param-structure"[i];
  }

  /** The anchor of title `methodObject` and field `paramStructure`. */
  lemma MethodParamStructureAnchor(title: string, field: string)
    requires title == "methodObject" && field == "paramStructure"
    ensures MakeAnchor(title, field) == "method-param-structure"
  {
    KebabOfMethodObject(title);
    ParamStructureIsOneHump(field);
    LowerParamStructure("param-Structure");
    var k := ToKebabCase(title);
    assert EndsWith(k, "-object");
    assert StripObjectSuffix(k) == "method";
  }

  /** `toTitleCase` of one camelCase hump: a space goes in and the first letter is raised. */
  lemma TitleOfOneHump(a: string, b: string)
    requires |a| > 0 && AllAsciiLower(a)
    requires |b| > 0 && IsAsciiUpper(b[0]) && NoAsciiUpper(b[1..])
    ensures ToTitleCase(a + b) == [UpperChar(a[0])] + a[1..] + [' '] + b
  {
    var s := a + b;
    InsertSeparatorsOneHump(a, b, ' ');
    var spaced := InsertSeparators(s, ' ');
    assert spaced[0] == a[0] && spaced[1..] == a[1..] + [' '] + b;
    var r := ToTitleCase(s);
    assert r == [r[0]] + r[1..];
  }
}
