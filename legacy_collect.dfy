/** The older section collector of src/build.ts:26-125: the same walk as `Collect`, without an
    exclusion set, recording the raw title under `parentTitle`. */
module LegacyCollect {
  import opened Wrappers
  import opened Schema
  import opened CaseHelpers
  import opened Mdast
  import opened Tables
  import opened Collect

  /** The section record of src/build.ts:65-74. */
  datatype LegacySection = LegacySection(
    title: string,
    parentTitle: string,
    fields: seq<FieldDef>,
    headingDepth: HeadingDepth,
    description: Option<string>,
    hasSpecExtensions: bool)

  /** The same section, with its raw title under `parentTitle`. */
  function ToLegacy(s: Section): (l: LegacySection)
    ensures l.parentTitle == s.schemaTitleRaw && l.title == s.title && l.fields == s.fields
    ensures l.headingDepth == s.headingDepth && l.description == s.description
    ensures l.hasSpecExtensions == s.hasSpecExtensions
  {
    LegacySection(s.title, s.schemaTitleRaw, s.fields, s.headingDepth, s.description, s.hasSpecExtensions)
  }

  function ToLegacySections(ss: seq<Section>): (r: seq<LegacySection>)
    ensures |r| == |ss| && forall k :: 0 <= k < |ss| ==> r[k] == ToLegacy(ss[k])
  {
    seq(|ss|, k requires 0 <= k < |ss| => ToLegacy(ss[k]))
  }

  lemma ToLegacySectionsAppend(a: seq<Section>, b: seq<Section>)
    ensures ToLegacySections(a + b) == ToLegacySections(a) + ToLegacySections(b)
  {
    var l, r := ToLegacySections(a + b), ToLegacySections(a) + ToLegacySections(b);
    forall k | 0 <= k < |l| ensures l[k] == r[k] {
      if k < |a| { assert (a + b)[k] == a[k]; } else { assert (a + b)[k] == b[k - |a|]; }
    }
  }

  /** `collectSections(schema, depth, visited)`, src/build.ts:49-119: the walk of the newer
      collector with nothing excluded. */
  method LegacyCollectSections(g: Graph, id: NodeId, depth: nat, visited: set<string>)
    returns (sections: seq<LegacySection>, visitedOut: set<string>)
    requires WellFormed(g) && id in g
    ensures sections == ToLegacySections(CollectWalk(g, id, depth, visited, {}).sections)
    ensures visitedOut == CollectWalk(g, id, depth, visited, {}).visited
    decreases |Titles(g) - visited|, 2
  {
    var schema := g[id];
    var title := TitleKey(schema);
    assert title in Titles(g);
    if title in visited {
      return [], visited;
    }
    var vis := visited + {title};
    var fields := ExtractFields(g, schema);
    if |fields| == 0 {
      return [], vis;
    }
    var properties := schema.properties.value;
    var head := MakeSection(g, id, depth, fields);
    sections := [LegacySection(ToTitleCase(title), title, fields, HeadingDepthAt(depth),
                               schema.description, HasExtensionPattern(schema.patternProperties))];
    ghost var acc := [head];
    assert sections == ToLegacySections(acc);
    ghost var total := CollectWalk(g, id, depth, visited, {});
    for i := 0 to |fields|
      invariant visited + {title} <= vis
      invariant sections == ToLegacySections(acc)
      invariant FieldsAcc(g, id, i, depth, Walk(acc, vis), {}) == total
    {
      LookupDistinct(properties, i);
      var propId := Lookup(properties, fields[i].name).value;
      ghost var modern;
      sections, vis, modern := LegacyCollectField(g, propId, depth, sections, vis, acc, visited, title);
      acc := modern;
    }
    visitedOut := vis;
  }

  /** The body of the loop over the fields, src/build.ts:77-117; `acc0` and `acc` are the
      sections of the newer collector that `sections0` and `sections` stand for. */
  method LegacyCollectField(g: Graph, propId: NodeId, depth: nat, sections0: seq<LegacySection>,
                            vis0: set<string>, ghost acc0: seq<Section>, ghost visited: set<string>,
                            ghost title: string)
    returns (sections: seq<LegacySection>, vis: set<string>, ghost acc: seq<Section>)
    requires WellFormed(g) && propId in g && sections0 == ToLegacySections(acc0)
    requires title in Titles(g) && title !in visited && visited + {title} <= vis0
    ensures visited + {title} <= vis && sections == ToLegacySections(acc)
    ensures Walk(acc, vis) == FieldStep(g, propId, depth, Walk(acc0, vis0), {})
    decreases |Titles(g) - visited|, 1
  {
    var propSchema := g[propId];
    sections, vis, acc := sections0, vis0, acc0;
    if propSchema.properties.Some? {
      MarkShrinks(Titles(g), visited, title, vis);
      var more, v := LegacyCollectSections(g, propId, depth + 1, vis);
      ToLegacySectionsAppend(acc, CollectWalk(g, propId, depth + 1, vis, {}).sections);
      sections, vis, acc := sections + more, v, acc + CollectWalk(g, propId, depth + 1, vis, {}).sections;
    } else if propSchema.items.Some? && g[propSchema.items.value].properties.Some? {
      var itemsId := propSchema.items.value;
      MarkShrinks(Titles(g), visited, title, vis);
      var more, v := LegacyCollectSections(g, itemsId, depth + 1, vis);
      ToLegacySectionsAppend(acc, CollectWalk(g, itemsId, depth + 1, vis, {}).sections);
      sections, vis, acc := sections + more, v, acc + CollectWalk(g, itemsId, depth + 1, vis, {}).sections;
    } else if propSchema.items.Some? && g[propSchema.items.value].oneOf.Some? {
      sections, vis, acc := LegacyCollectVariants(g, g[propSchema.items.value].oneOf.value, depth,
                                                  sections, vis, acc, visited, title);
    } else if propSchema.oneOf.Some? {
      sections, vis, acc := LegacyCollectVariants(g, propSchema.oneOf.value, depth,
                                                  sections, vis, acc, visited, title);
    }
    if propSchema.patternProperties.Some? {
      var patterns := propSchema.patternProperties.value;
      ghost var chain := Walk(acc, vis);
      for j := 0 to |patterns|
        invariant visited + {title} <= vis && sections == ToLegacySections(acc)
        invariant PatternsAcc(g, patterns, j, depth, Walk(acc, vis), {}) ==
          PatternsAcc(g, patterns, 0, depth, chain, {})
      {
        var (pattern, valueId) := patterns[j];
        if pattern == ExtensionPattern {
          continue;
        }
        if g[valueId].properties.Some? {
          MarkShrinks(Titles(g), visited, title, vis);
          var more, v := LegacyCollectSections(g, valueId, depth + 1, vis);
          ToLegacySectionsAppend(acc, CollectWalk(g, valueId, depth + 1, vis, {}).sections);
          sections, vis, acc := sections + more, v, acc + CollectWalk(g, valueId, depth + 1, vis, {}).sections;
        }
      }
    }
  }

  /** The two `for (const variant of …oneOf)` loops of src/build.ts:89-103. */
  method LegacyCollectVariants(g: Graph, variants: seq<NodeId>, depth: nat, sections0: seq<LegacySection>,
                               vis0: set<string>, ghost acc0: seq<Section>, ghost visited: set<string>,
                               ghost title: string)
    returns (sections: seq<LegacySection>, vis: set<string>, ghost acc: seq<Section>)
    requires WellFormed(g) && VariantsIn(g, variants) && sections0 == ToLegacySections(acc0)
    requires title in Titles(g) && title !in visited && visited + {title} <= vis0
    ensures visited + {title} <= vis && sections == ToLegacySections(acc)
    ensures Walk(acc, vis) == VariantsAcc(g, variants, 0, depth, Walk(acc0, vis0), {})
    decreases |Titles(g) - visited|, 0
  {
    sections, vis, acc := sections0, vis0, acc0;
    for j := 0 to |variants|
      invariant visited + {title} <= vis && sections == ToLegacySections(acc)
      invariant VariantsAcc(g, variants, j, depth, Walk(acc, vis), {}) ==
        VariantsAcc(g, variants, 0, depth, Walk(acc0, vis0), {})
    {
      var variant := variants[j];
      if g[variant].properties.Some? {
        MarkShrinks(Titles(g), visited, title, vis);
        var more, v := LegacyCollectSections(g, variant, depth + 1, vis);
        ToLegacySectionsAppend(acc, CollectWalk(g, variant, depth + 1, vis, {}).sections);
        sections, vis, acc := sections + more, v, acc + CollectWalk(g, variant, depth + 1, vis, {}).sections;
      }
    }
  }

  /** The collector call of the legacy `build`, src/build.ts:125: depth 0, nothing visited.
      Its sections have pairwise distinct raw titles. */
  method LegacyBuildSections(g: Graph, root: NodeId) returns (sections: seq<LegacySection>)
    requires WellFormed(g) && root in g
    ensures sections == ToLegacySections(CollectWalk(g, root, 0, {}, {}).sections)
    ensures forall i, j :: 0 <= i < j < |sections| ==> sections[i].parentTitle != sections[j].parentTitle
  {
    var visitedOut;
    sections, visitedOut := LegacyCollectSections(g, root, 0, {});
    CollectWalkExtends(g, root, 0, {}, {});
  }
}
