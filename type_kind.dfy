/** The type classifier of src/util.ts:109-164: a first-match-wins decision over a schema
    fragment. */
module TypeKinds {
  import opened Wrappers
  import opened Schema

  datatype TypeKind =
    | Primitive(typeName: string)
    | Object(title: string)
    | Array(items: NodeId)
    | Map(valueType: NodeId)
    | OneOf(variants: seq<NodeId>)
    | Unknown

  /** `Object.entries(patternProperties).filter(([k]) => k !== "^x-")`. */
  function NonExtensionPatterns(patterns: seq<(string, NodeId)>): (r: seq<(string, NodeId)>)
    ensures forall k :: 0 <= k < |r| ==> r[k].0 != ExtensionPattern && r[k] in patterns
    ensures |r| == 0 <==> forall k :: 0 <= k < |patterns| ==> patterns[k].0 == ExtensionPattern
  {
    if |patterns| == 0 then []
    else
      var rest := NonExtensionPatterns(patterns[1..]);
      assert forall k :: 0 <= k < |rest| ==> rest[k] in patterns by {
        forall k | 0 <= k < |rest| ensures rest[k] in patterns {
          assert rest[k] in patterns[1..];
        }
      }
      if patterns[0].0 != ExtensionPattern then [patterns[0]] + rest else rest
  }

  /** The filtered list starts with the first non-extension pattern in declaration order. */
  lemma {:induction false} FirstNonExtensionPattern(patterns: seq<(string, NodeId)>)
    requires |NonExtensionPatterns(patterns)| > 0
    ensures exists i :: (0 <= i < |patterns| && patterns[i] == NonExtensionPatterns(patterns)[0] &&
      patterns[i].0 != ExtensionPattern &&
      forall j :: 0 <= j < i ==> patterns[j].0 == ExtensionPattern)
  {
    if patterns[0].0 == ExtensionPattern {
      FirstNonExtensionPattern(patterns[1..]);
      var i :| 0 <= i < |patterns[1..]| && patterns[1..][i] == NonExtensionPatterns(patterns[1..])[0] &&
        patterns[1..][i].0 != ExtensionPattern &&
        forall j :: 0 <= j < i ==> patterns[1..][j].0 == ExtensionPattern;
      assert patterns[i + 1] == patterns[1..][i];
      assert forall j :: 1 <= j < i + 1 ==> patterns[j] == patterns[1..][j - 1];
    } else {
      assert patterns[0] == NonExtensionPatterns(patterns)[0];
    }
  }

  /** `computeTypeKind`, src/util.ts:117-164. */
  function ComputeTypeKind(t: TypeInfo): (k: TypeKind)
    ensures k.OneOf? <==> t.oneOf.Some? && |t.oneOf.value| > 0
    ensures k.Array? ==> t.typ == Some("array") && t.items == Some(k.items)
    ensures k.Map? ==> (t.typ == Some("object") && t.patternProperties.Some? &&
      exists key :: key != ExtensionPattern && (key, k.valueType) in t.patternProperties.value)
    ensures k.Object? ==> t.properties.Some? && Truthy(t.title) && k.title == t.title.value
    // a primitive never carries `properties`: the titled-primitive branch cannot fire
    ensures k.Primitive? ==> Truthy(t.typ) && t.properties.None? && k.typeName == t.typ.value
  {
    // 1. union
    if t.oneOf.Some? && |t.oneOf.value| > 0 then OneOf(t.oneOf.value)
    // 2. array
    else if t.typ == Some("array") && t.items.Some? then Array(t.items.value)
    // 3. map over the first pattern that is not `^x-`
    else if t.typ == Some("object") && t.patternProperties.Some? &&
            |NonExtensionPatterns(t.patternProperties.value)| > 0 then
      var first := NonExtensionPatterns(t.patternProperties.value)[0];
      assert first in t.patternProperties.value;
      Map(first.1)
    // 4. object with properties: a link target
    else if t.properties.Some? && Truthy(t.title) then Object(t.title.value)
    // 5. primitive
    else if Truthy(t.typ) && t.properties.None? then Primitive(t.typ.value)
    // 6. titled primitive alias (written without destructors: the branch is unreachable,
    //    see UnknownWhenNoBranchMatches)
    else if Truthy(t.title) && Truthy(t.typ) &&
            t.typ in [Some("string"), Some("integer"), Some("boolean"), Some("number")] then
      Primitive(t.typ.GetOr(""))
    // 7. nothing structural
    else Unknown
  }

  /** A non-empty `oneOf` wins over every other keyword. */
  lemma OneOfTakesPrecedence(t: TypeInfo)
    requires t.oneOf.Some? && |t.oneOf.value| > 0
    ensures ComputeTypeKind(t) == OneOf(t.oneOf.value)
  {
  }

  /** An array needs `items`; without them the schema is a primitive named "array" (or a link
      when it also has properties and a title). */
  lemma ArrayWithoutItems(t: TypeInfo)
    requires t.typ == Some("array") && t.items.None? && (t.oneOf.None? || |t.oneOf.value| == 0)
    ensures t.properties.None? ==> ComputeTypeKind(t) == Primitive("array")
    ensures t.properties.Some? && Truthy(t.title) ==> ComputeTypeKind(t) == Object(t.title.value)
    ensures t.properties.Some? && !Truthy(t.title) ==> ComputeTypeKind(t) == Unknown
  {
  }

  /** `Array` exactly when no union applies and `type` is "array" with `items`. */
  lemma ArrayExactly(t: TypeInfo)
    ensures ComputeTypeKind(t).Array? <==>
      (t.oneOf.None? || |t.oneOf.value| == 0) && t.typ == Some("array") && t.items.Some?
  {
  }

  /** A map's value type is the first pattern, in declaration order, that is not `^x-`; a
      schema whose only pattern is `^x-` is not a map. */
  lemma MapValueIsFirstNonExtension(t: TypeInfo)
    requires ComputeTypeKind(t).Map?
    ensures exists i :: (0 <= i < |t.patternProperties.value| &&
      t.patternProperties.value[i].1 == ComputeTypeKind(t).valueType &&
      t.patternProperties.value[i].0 != ExtensionPattern &&
      forall j :: 0 <= j < i ==> t.patternProperties.value[j].0 == ExtensionPattern)
  {
    FirstNonExtensionPattern(t.patternProperties.value);
  }

  lemma OnlyExtensionPatternIsNotMap(t: TypeInfo)
    requires t.patternProperties.Some?
    requires forall k :: 0 <= k < |t.patternProperties.value| ==> t.patternProperties.value[k].0 == ExtensionPattern
    ensures !ComputeTypeKind(t).Map?
  {
  }

  /** `Unknown` exactly when none of the first five branches matched, so branch 6 is dead. */
  lemma UnknownWhenNoBranchMatches(t: TypeInfo)
    ensures ComputeTypeKind(t) == Unknown <==>
      !(t.oneOf.Some? && |t.oneOf.value| > 0) &&
      !(t.typ == Some("array") && t.items.Some?) &&
      !(t.typ == Some("object") && t.patternProperties.Some? &&
        exists k :: 0 <= k < |t.patternProperties.value| && t.patternProperties.value[k].0 != ExtensionPattern) &&
      !(t.properties.Some? && Truthy(t.title)) &&
      !(Truthy(t.typ) && t.properties.None?)
  {
    if t.patternProperties.Some? {
      var patterns := t.patternProperties.value;
      if exists k :: 0 <= k < |patterns| && patterns[k].0 != ExtensionPattern {
        assert |NonExtensionPatterns(patterns)| > 0;
      }
    }
  }

  /** A map whose first pattern is `^x-`: that pattern is skipped and the second one types the map. */
  lemma MapExample(t: TypeInfo)
    requires t == TypeInfo(None, Some("object"), None, None, None, Some([("^x-", 1), ("X-.*", 2)]))
    ensures ComputeTypeKind(t) == Map(2)
  {
    var patterns := t.patternProperties.value;
    assert patterns[1..] == [("X-.*", 2)];
    assert NonExtensionPatterns(patterns) == [("X-.*", 2)];
  }
}
