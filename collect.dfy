/** The section collector of src/build-markdown.ts:31-141: a depth-first, pre-order walk over
    the schema graph that threads a `visited` set of titles through every call. */
module Collect {
  import opened Wrappers
  import opened Schema
  import opened CaseHelpers
  import opened Mdast
  import opened Tables

  /** `extractFields`, src/build-markdown.ts:32-52: one field per property, in declaration
      order, required exactly when its name is listed in `required`. */
  function ExtractFields(g: Graph, n: Node): (fields: seq<FieldDef>)
    requires EntriesIn(g, n.properties)
    ensures |fields| == |n.properties.GetOr([])|
    ensures forall k :: 0 <= k < |fields| ==>
      var (name, child) := n.properties.value[k];
      fields[k].name == name && fields[k].schema == Narrow(g[child]) &&
      fields[k].description == g[child].description &&
      (fields[k].required <==> name in n.required.GetOr([]))
    ensures FieldsIn(g, fields) <== WellFormed(g)
  {
    var properties := n.properties.GetOr([]);
    var requiredFields := n.required.GetOr([]);
    seq(|properties|, k requires 0 <= k < |properties| =>
      var (name, child) := properties[k];
      FieldDef(name, Narrow(g[child]), g[child].description, name in requiredFields))
  }

  /** `schema.title || "object"`: the identity of a node in `visited`. */
  function TitleKey(n: Node): (key: string)
    ensures key != ""
  {
    if Truthy(n.title) then n.title.value else "object"
  }

  /** Every identity the graph can add to `visited`. */
  function Titles(g: Graph): set<string> {
    set id | id in g :: TitleKey(g[id])
  }

  /** `Math.min(depth + 1, 6)`. */
  function HeadingDepthAt(depth: nat): (h: HeadingDepth)
    ensures h == if depth + 1 < 6 then depth + 1 else 6
  {
    if depth + 1 < 6 then depth + 1 else 6
  }

  /** The section emitted for node `id`, src/build-markdown.ts:76-85. */
  function MakeSection(g: Graph, id: NodeId, depth: nat, fields: seq<FieldDef>): (s: Section)
    requires id in g
    ensures s.schemaTitleRaw == TitleKey(g[id]) && s.title == ToTitleCase(TitleKey(g[id]))
    ensures s.fields == fields && s.headingDepth == HeadingDepthAt(depth)
    ensures s.description == g[id].description
    ensures s.hasSpecExtensions <==> HasExtensionPattern(g[id].patternProperties)
  {
    var title := TitleKey(g[id]);
    Section(ToTitleCase(title), title, fields, HeadingDepthAt(depth), g[id].description,
            HasExtensionPattern(g[id].patternProperties))
  }

  /** The outcome of a walk: the sections it emitted and the `visited` set it leaves. */
  datatype Walk = Walk(sections: seq<Section>, visited: set<string>)

  /** What every walk that started with `visited` guarantees: `visited` only grows, and only
      by titles of the graph; each emitted section has a title the walk itself added (so none
      was visited before, and no two are equal), none is excluded, none is shallower than
      `minDepth`, and all can be rendered against the graph. */
  predicate Extends(g: Graph, visited: set<string>, exclude: set<string>, minDepth: nat, w: Walk) {
    visited <= w.visited <= visited + Titles(g) &&
    (forall k :: 0 <= k < |w.sections| ==>
      w.sections[k].schemaTitleRaw in w.visited - visited &&
      w.sections[k].schemaTitleRaw !in exclude &&
      minDepth <= w.sections[k].headingDepth) &&
    (forall i, j :: 0 <= i < j < |w.sections| ==>
      w.sections[i].schemaTitleRaw != w.sections[j].schemaTitleRaw) &&
    SectionsIn(g, w.sections)
  }

  /** Two walks run one after the other extend the first one's starting set. */
  lemma ExtendsChain(g: Graph, v0: set<string>, exclude: set<string>, minDepth: nat, w1: Walk, w2: Walk)
    requires Extends(g, v0, exclude, minDepth, w1) && Extends(g, w1.visited, exclude, minDepth, w2)
    ensures Extends(g, v0, exclude, minDepth, Walk(w1.sections + w2.sections, w2.visited))
  {
    var ss := w1.sections + w2.sections;
    forall k | 0 <= k < |ss|
      ensures ss[k].schemaTitleRaw in w2.visited - v0 && ss[k].schemaTitleRaw !in exclude &&
        minDepth <= ss[k].headingDepth
    {
      if k >= |w1.sections| { assert ss[k] == w2.sections[k - |w1.sections|]; }
    }
    forall i, j | 0 <= i < j < |ss| ensures ss[i].schemaTitleRaw != ss[j].schemaTitleRaw {
      if j >= |w1.sections| {
        assert ss[j] == w2.sections[j - |w1.sections|];
        if i >= |w1.sections| { assert ss[i] == w2.sections[i - |w1.sections|]; }
      }
    }
  }

  /** The section of a fresh, not excluded node with fields extends `visited`. */
  lemma HeadExtends(g: Graph, id: NodeId, depth: nat, visited: set<string>, exclude: set<string>)
    requires WellFormed(g) && id in g
    requires TitleKey(g[id]) !in visited && TitleKey(g[id]) !in exclude
    ensures Extends(g, visited, exclude, HeadingDepthAt(depth),
      Walk([MakeSection(g, id, depth, ExtractFields(g, g[id]))], visited + {TitleKey(g[id])}))
  {
    assert TitleKey(g[id]) in Titles(g);
    var s := MakeSection(g, id, depth, ExtractFields(g, g[id]));
    assert FieldsIn(g, s.fields);
    assert [s][0] == s;
  }

  lemma ExtendsDeeper(g: Graph, v0: set<string>, exclude: set<string>, d1: nat, d2: nat, w: Walk)
    requires Extends(g, v0, exclude, d2, w) && d1 <= d2
    ensures Extends(g, v0, exclude, d1, w)
  {
  }

  /** Marking a fresh title strictly shrinks the set of titles still unvisited. */
  lemma MarkShrinks(titles: set<string>, visited: set<string>, key: string, later: set<string>)
    requires key in titles && key !in visited && visited + {key} <= later
    ensures |titles - later| < |titles - visited|
  {
    assert titles - later <= (titles - visited) - {key};
    SubsetCard(titles - later, (titles - visited) - {key});
  }

  lemma GrowNotLarger(titles: set<string>, visited: set<string>, later: set<string>)
    requires visited <= later
    ensures |titles - later| <= |titles - visited|
  {
    SubsetCard(titles - later, titles - visited);
  }

  lemma {:induction false} SubsetCard<T>(a: set<T>, b: set<T>)
    requires a <= b
    ensures |a| <= |b|
    decreases |b|
  {
    if a != {} {
      var x :| x in a;
      SubsetCard(a - {x}, b - {x});
    }
  }

  predicate VariantsIn(g: Graph, variants: seq<NodeId>) {
    forall k :: 0 <= k < |variants| ==> variants[k] in g
  }

  predicate PatternsIn(g: Graph, patterns: seq<(string, NodeId)>) {
    forall k :: 0 <= k < |patterns| ==> patterns[k].1 in g
  }

  /** `sections.push(...more)` together with the `visited` set the pushed walk left. */
  function Append(acc: Walk, more: Walk): (r: Walk)
    ensures r.sections == acc.sections + more.sections && r.visited == more.visited
  {
    Walk(acc.sections + more.sections, more.visited)
  }

  /** `collectSections(schema, depth, visited, excludeTitles)`, src/build-markdown.ts:54-141. */
  function CollectWalk(g: Graph, id: NodeId, depth: nat, visited: set<string>, exclude: set<string>): (w: Walk)
    requires WellFormed(g) && id in g
    ensures visited + {TitleKey(g[id])} <= w.visited
    decreases |Titles(g) - visited|, 0, 0
  {
    var key := TitleKey(g[id]);
    assert key in Titles(g);
    if key in visited then Walk([], visited)
    else if key in exclude then Walk([], visited + {key})
    else
      var marked := visited + {key};
      var fields := ExtractFields(g, g[id]);
      if |fields| == 0 then Walk([], marked)
      else
        MarkShrinks(Titles(g), visited, key, marked);
        FieldsAcc(g, id, 0, depth, Walk([MakeSection(g, id, depth, fields)], marked), exclude)
  }

  /** The `for` loop over the fields of node `id`, from field `i` on, pushing onto `acc`. */
  function FieldsAcc(g: Graph, id: NodeId, i: nat, depth: nat, acc: Walk, exclude: set<string>): (w: Walk)
    requires WellFormed(g) && id in g && g[id].properties.Some? && i <= |g[id].properties.value|
    ensures acc.visited <= w.visited && acc.sections <= w.sections
    decreases |Titles(g) - acc.visited|, 3, |g[id].properties.value| - i
  {
    var properties := g[id].properties.value;
    if i == |properties| then acc
    else
      var next := FieldStep(g, properties[i].1, depth, acc, exclude);
      GrowNotLarger(Titles(g), acc.visited, next.visited);
      FieldsAcc(g, id, i + 1, depth, next, exclude)
  }

  /** One field: the else-if chain of src/build-markdown.ts:91-122, then the separate
      `patternProperties` branch of lines 124-138. */
  function FieldStep(g: Graph, child: NodeId, depth: nat, acc: Walk, exclude: set<string>): (w: Walk)
    requires WellFormed(g) && child in g
    ensures acc.visited <= w.visited && acc.sections <= w.sections
    decreases |Titles(g) - acc.visited|, 2, 0
  {
    var chain := BranchStep(g, child, depth, acc, exclude);
    if g[child].patternProperties.Some? then
      GrowNotLarger(Titles(g), acc.visited, chain.visited);
      PatternsAcc(g, g[child].patternProperties.value, 0, depth, chain, exclude)
    else chain
  }

  /** The else-if chain: own properties, else items with properties, else the variants of
      the items' `oneOf`, else the variants of the field's own `oneOf`. */
  function BranchStep(g: Graph, child: NodeId, depth: nat, acc: Walk, exclude: set<string>): (w: Walk)
    requires WellFormed(g) && child in g
    ensures acc.visited <= w.visited && acc.sections <= w.sections
    decreases |Titles(g) - acc.visited|, 1, 0
  {
    var n := g[child];
    if n.properties.Some? then
      Append(acc, CollectWalk(g, child, depth + 1, acc.visited, exclude))
    else if n.items.Some? && g[n.items.value].properties.Some? then
      Append(acc, CollectWalk(g, n.items.value, depth + 1, acc.visited, exclude))
    else if n.items.Some? && g[n.items.value].oneOf.Some? then
      VariantsAcc(g, g[n.items.value].oneOf.value, 0, depth, acc, exclude)
    else if n.oneOf.Some? then
      VariantsAcc(g, n.oneOf.value, 0, depth, acc, exclude)
    else acc
  }

  /** The loop over `oneOf` variants from variant `j` on: those with properties are collected. */
  function VariantsAcc(g: Graph, variants: seq<NodeId>, j: nat, depth: nat, acc: Walk, exclude: set<string>): (w: Walk)
    requires WellFormed(g) && VariantsIn(g, variants) && j <= |variants|
    ensures acc.visited <= w.visited && acc.sections <= w.sections
    decreases |Titles(g) - acc.visited|, 0, |variants| - j
  {
    if j == |variants| then acc
    else
      var next :=
        if g[variants[j]].properties.Some? then
          Append(acc, CollectWalk(g, variants[j], depth + 1, acc.visited, exclude))
        else acc;
      GrowNotLarger(Titles(g), acc.visited, next.visited);
      VariantsAcc(g, variants, j + 1, depth, next, exclude)
  }

  /** The loop over `patternProperties` from entry `j` on: `^x-` is skipped, values with
      properties are collected. */
  function PatternsAcc(g: Graph, patterns: seq<(string, NodeId)>, j: nat, depth: nat, acc: Walk, exclude: set<string>): (w: Walk)
    requires WellFormed(g) && PatternsIn(g, patterns) && j <= |patterns|
    ensures acc.visited <= w.visited && acc.sections <= w.sections
    decreases |Titles(g) - acc.visited|, 0, |patterns| - j
  {
    if j == |patterns| then acc
    else
      var next :=
        if patterns[j].0 != ExtensionPattern && g[patterns[j].1].properties.Some? then
          Append(acc, CollectWalk(g, patterns[j].1, depth + 1, acc.visited, exclude))
        else acc;
      GrowNotLarger(Titles(g), acc.visited, next.visited);
      PatternsAcc(g, patterns, j + 1, depth, next, exclude)
  }

  /** A node already visited emits nothing and changes nothing; an excluded one emits nothing
      but is marked; one without fields is marked and emits nothing; otherwise its own section
      comes first, ahead of everything found below it. */
  lemma CollectWalkShape(g: Graph, id: NodeId, depth: nat, visited: set<string>, exclude: set<string>)
    requires WellFormed(g) && id in g
    ensures var w := CollectWalk(g, id, depth, visited, exclude);
      var key := TitleKey(g[id]);
      (key in visited ==> w == Walk([], visited)) &&
      (key !in visited && key in exclude ==> w == Walk([], visited + {key})) &&
      (key !in visited && g[id].properties.GetOr([]) == [] ==> w == Walk([], visited + {key})) &&
      (w.sections != [] <==> key !in visited && key !in exclude && g[id].properties.GetOr([]) != []) &&
      (w.sections != [] ==> w.sections[0] == MakeSection(g, id, depth, ExtractFields(g, g[id])))
  {
    var key := TitleKey(g[id]);
    if key !in visited && key !in exclude && g[id].properties.GetOr([]) != [] {
      var head := [MakeSection(g, id, depth, ExtractFields(g, g[id]))];
      var w := CollectWalk(g, id, depth, visited, exclude);
      assert head <= w.sections;
      assert w.sections[0] == head[0];
    }
  }

  /** A node whose field refers back to the node itself yields its own section once: the
      second visit finds its title already in `visited`. */
  lemma SelfReferenceYieldsOneSection(g: Graph)
    requires g == map[0 := Node(Some("Tree"), Some("object"), Some([("child", 0)]), None, None, None, None, None)]
    ensures WellFormed(g)
    ensures CollectWalk(g, 0, 0, {}, {}) == Walk([MakeSection(g, 0, 0, ExtractFields(g, g[0]))], {"Tree"})
  {
    var head := Walk([MakeSection(g, 0, 0, ExtractFields(g, g[0]))], {"Tree"});
    assert TitleKey(g[0]) == "Tree";
    assert CollectWalk(g, 0, 1, {"Tree"}, {}) == Walk([], {"Tree"});
    assert head.visited + {"Tree"} == head.visited;
    assert Append(head, Walk([], {"Tree"})) == head by {
      assert head.sections + [] == head.sections;
    }
    assert FieldStep(g, 0, 0, head, {}) == head;
    assert FieldsAcc(g, 0, 1, 0, head, {}) == head;
    assert FieldsAcc(g, 0, 0, 0, head, {}) == head;
    assert |ExtractFields(g, g[0])| == 1;
    assert {} + {"Tree"} == head.visited;
  }

  /** Every walk keeps `Extends`: no title is emitted twice, none is excluded, none was
      visited before the walk, and `visited` only gains titles of the graph. */
  lemma {:induction false} CollectWalkExtends(g: Graph, id: NodeId, depth: nat, visited: set<string>, exclude: set<string>)
    requires WellFormed(g) && id in g
    ensures Extends(g, visited, exclude, HeadingDepthAt(depth), CollectWalk(g, id, depth, visited, exclude))
    decreases |Titles(g) - visited|, 0, 0
  {
    var key := TitleKey(g[id]);
    assert key in Titles(g);
    if key !in visited && key !in exclude && |ExtractFields(g, g[id])| > 0 {
      var marked := visited + {key};
      MarkShrinks(Titles(g), visited, key, marked);
      HeadExtends(g, id, depth, visited, exclude);
      FieldsAccExtends(g, id, 0, depth, visited, exclude, HeadingDepthAt(depth),
        Walk([MakeSection(g, id, depth, ExtractFields(g, g[id]))], marked));
    }
  }

  /** Pushing the walk of a child onto an accumulator that extends `v0` still extends `v0`. */
  lemma ChildExtends(g: Graph, child: NodeId, depth: nat, v0: set<string>, exclude: set<string>, minDepth: nat, acc: Walk)
    requires WellFormed(g) && child in g
    requires Extends(g, v0, exclude, minDepth, acc) && minDepth <= HeadingDepthAt(depth + 1)
    ensures Extends(g, v0, exclude, minDepth, Append(acc, CollectWalk(g, child, depth + 1, acc.visited, exclude)))
    decreases |Titles(g) - acc.visited|, 0, 1
  {
    var more := CollectWalk(g, child, depth + 1, acc.visited, exclude);
    CollectWalkExtends(g, child, depth + 1, acc.visited, exclude);
    ExtendsDeeper(g, acc.visited, exclude, minDepth, HeadingDepthAt(depth + 1), more);
    ExtendsChain(g, v0, exclude, minDepth, acc, more);
  }

  lemma {:induction false} FieldsAccExtends(g: Graph, id: NodeId, i: nat, depth: nat, v0: set<string>, exclude: set<string>, minDepth: nat, acc: Walk)
    requires WellFormed(g) && id in g && g[id].properties.Some? && i <= |g[id].properties.value|
    requires Extends(g, v0, exclude, minDepth, acc) && minDepth <= HeadingDepthAt(depth + 1)
    ensures Extends(g, v0, exclude, minDepth, FieldsAcc(g, id, i, depth, acc, exclude))
    decreases |Titles(g) - acc.visited|, 3, |g[id].properties.value| - i
  {
    var properties := g[id].properties.value;
    if i < |properties| {
      var next := FieldStep(g, properties[i].1, depth, acc, exclude);
      GrowNotLarger(Titles(g), acc.visited, next.visited);
      FieldStepExtends(g, properties[i].1, depth, v0, exclude, minDepth, acc);
      FieldsAccExtends(g, id, i + 1, depth, v0, exclude, minDepth, next);
    }
  }

  lemma {:induction false} FieldStepExtends(g: Graph, child: NodeId, depth: nat, v0: set<string>, exclude: set<string>, minDepth: nat, acc: Walk)
    requires WellFormed(g) && child in g
    requires Extends(g, v0, exclude, minDepth, acc) && minDepth <= HeadingDepthAt(depth + 1)
    ensures Extends(g, v0, exclude, minDepth, FieldStep(g, child, depth, acc, exclude))
    decreases |Titles(g) - acc.visited|, 2, 0
  {
    var chain := BranchStep(g, child, depth, acc, exclude);
    BranchStepExtends(g, child, depth, v0, exclude, minDepth, acc);
    if g[child].patternProperties.Some? {
      GrowNotLarger(Titles(g), acc.visited, chain.visited);
      PatternsAccExtends(g, g[child].patternProperties.value, 0, depth, v0, exclude, minDepth, chain);
    }
  }

  lemma {:induction false} BranchStepExtends(g: Graph, child: NodeId, depth: nat, v0: set<string>, exclude: set<string>, minDepth: nat, acc: Walk)
    requires WellFormed(g) && child in g
    requires Extends(g, v0, exclude, minDepth, acc) && minDepth <= HeadingDepthAt(depth + 1)
    ensures Extends(g, v0, exclude, minDepth, BranchStep(g, child, depth, acc, exclude))
    decreases |Titles(g) - acc.visited|, 1, 0
  {
    var n := g[child];
    if n.properties.Some? {
      ChildExtends(g, child, depth, v0, exclude, minDepth, acc);
    } else if n.items.Some? && g[n.items.value].properties.Some? {
      ChildExtends(g, n.items.value, depth, v0, exclude, minDepth, acc);
    } else if n.items.Some? && g[n.items.value].oneOf.Some? {
      VariantsAccExtends(g, g[n.items.value].oneOf.value, 0, depth, v0, exclude, minDepth, acc);
    } else if n.oneOf.Some? {
      VariantsAccExtends(g, n.oneOf.value, 0, depth, v0, exclude, minDepth, acc);
    }
  }

  lemma {:induction false} VariantsAccExtends(g: Graph, variants: seq<NodeId>, j: nat, depth: nat, v0: set<string>, exclude: set<string>, minDepth: nat, acc: Walk)
    requires WellFormed(g) && VariantsIn(g, variants) && j <= |variants|
    requires Extends(g, v0, exclude, minDepth, acc) && minDepth <= HeadingDepthAt(depth + 1)
    ensures Extends(g, v0, exclude, minDepth, VariantsAcc(g, variants, j, depth, acc, exclude))
    decreases |Titles(g) - acc.visited|, 0, |variants| - j + 1
  {
    if j < |variants| {
      var next :=
        if g[variants[j]].properties.Some? then
          Append(acc, CollectWalk(g, variants[j], depth + 1, acc.visited, exclude))
        else acc;
      if g[variants[j]].properties.Some? {
        ChildExtends(g, variants[j], depth, v0, exclude, minDepth, acc);
      }
      GrowNotLarger(Titles(g), acc.visited, next.visited);
      VariantsAccExtends(g, variants, j + 1, depth, v0, exclude, minDepth, next);
    }
  }

  lemma {:induction false} PatternsAccExtends(g: Graph, patterns: seq<(string, NodeId)>, j: nat, depth: nat, v0: set<string>, exclude: set<string>, minDepth: nat, acc: Walk)
    requires WellFormed(g) && PatternsIn(g, patterns) && j <= |patterns|
    requires Extends(g, v0, exclude, minDepth, acc) && minDepth <= HeadingDepthAt(depth + 1)
    ensures Extends(g, v0, exclude, minDepth, PatternsAcc(g, patterns, j, depth, acc, exclude))
    decreases |Titles(g) - acc.visited|, 0, |patterns| - j + 1
  {
    if j < |patterns| {
      var collects := patterns[j].0 != ExtensionPattern && g[patterns[j].1].properties.Some?;
      var next :=
        if collects then Append(acc, CollectWalk(g, patterns[j].1, depth + 1, acc.visited, exclude))
        else acc;
      if collects {
        ChildExtends(g, patterns[j].1, depth, v0, exclude, minDepth, acc);
      }
      GrowNotLarger(Titles(g), acc.visited, next.visited);
      PatternsAccExtends(g, patterns, j + 1, depth, v0, exclude, minDepth, next);
    }
  }

  /** `collectSections`, src/build-markdown.ts:54-141, as the source writes it: the shared
      `visited` set is passed in and handed back, the sibling loops push onto `sections`. */
  method CollectSections(g: Graph, id: NodeId, depth: nat, visited: set<string>, excludeTitles: set<string>)
    returns (sections: seq<Section>, visitedOut: set<string>)
    requires WellFormed(g) && id in g
    ensures Walk(sections, visitedOut) == CollectWalk(g, id, depth, visited, excludeTitles)
    decreases |Titles(g) - visited|, 2
  {
    var schema := g[id];
    var title := TitleKey(schema);
    assert title in Titles(g);
    if title in visited {
      return [], visited;
    }
    if title in excludeTitles {
      return [], visited + {title};
    }
    var vis := visited + {title};
    var fields := ExtractFields(g, schema);
    if |fields| == 0 {
      return [], vis;
    }
    var properties := schema.properties.value;
    sections := [MakeSection(g, id, depth, fields)];
    ghost var total := CollectWalk(g, id, depth, visited, excludeTitles);
    for i := 0 to |fields|
      invariant visited + {title} <= vis
      invariant FieldsAcc(g, id, i, depth, Walk(sections, vis), excludeTitles) == total
    {
      LookupDistinct(properties, i);
      var propId := Lookup(properties, fields[i].name).value;
      sections, vis := CollectField(g, propId, depth, sections, vis, visited, title, excludeTitles);
    }
    visitedOut := vis;
  }

  /** The body of the loop over the fields, src/build-markdown.ts:88-139, for the field whose
      schema is node `propId`. */
  method CollectField(g: Graph, propId: NodeId, depth: nat, sections0: seq<Section>,
                      vis0: set<string>, ghost visited: set<string>, ghost title: string,
                      excludeTitles: set<string>)
    returns (sections: seq<Section>, vis: set<string>)
    requires WellFormed(g) && propId in g
    requires title in Titles(g) && title !in visited && visited + {title} <= vis0
    ensures visited + {title} <= vis
    ensures Walk(sections, vis) == FieldStep(g, propId, depth, Walk(sections0, vis0), excludeTitles)
    decreases |Titles(g) - visited|, 1
  {
    var propSchema := g[propId];
    sections, vis := sections0, vis0;
    if propSchema.properties.Some? {
      MarkShrinks(Titles(g), visited, title, vis);
      var more, v := CollectSections(g, propId, depth + 1, vis, excludeTitles);
      sections, vis := sections + more, v;
    } else if propSchema.items.Some? && g[propSchema.items.value].properties.Some? {
      MarkShrinks(Titles(g), visited, title, vis);
      var more, v := CollectSections(g, propSchema.items.value, depth + 1, vis, excludeTitles);
      sections, vis := sections + more, v;
    } else if propSchema.items.Some? && g[propSchema.items.value].oneOf.Some? {
      sections, vis := CollectVariants(g, g[propSchema.items.value].oneOf.value, depth, sections, vis,
                                       visited, title, excludeTitles);
    } else if propSchema.oneOf.Some? {
      sections, vis := CollectVariants(g, propSchema.oneOf.value, depth, sections, vis,
                                       visited, title, excludeTitles);
    }
    if propSchema.patternProperties.Some? {
      var patterns := propSchema.patternProperties.value;
      ghost var chain := Walk(sections, vis);
      for j := 0 to |patterns|
        invariant visited + {title} <= vis
        invariant PatternsAcc(g, patterns, j, depth, Walk(sections, vis), excludeTitles) ==
          PatternsAcc(g, patterns, 0, depth, chain, excludeTitles)
      {
        var (pattern, valueId) := patterns[j];
        if pattern == ExtensionPattern {
          continue;
        }
        if g[valueId].properties.Some? {
          MarkShrinks(Titles(g), visited, title, vis);
          var more, v := CollectSections(g, valueId, depth + 1, vis, excludeTitles);
          sections, vis := sections + more, v;
        }
      }
    }
  }

  /** The two identical `for (const variant of …oneOf)` loops of src/build-markdown.ts:103-121. */
  method CollectVariants(g: Graph, variants: seq<NodeId>, depth: nat, sections0: seq<Section>,
                         vis0: set<string>, ghost visited: set<string>, ghost title: string,
                         excludeTitles: set<string>)
    returns (sections: seq<Section>, vis: set<string>)
    requires WellFormed(g) && VariantsIn(g, variants)
    requires title in Titles(g) && title !in visited && visited + {title} <= vis0
    ensures visited + {title} <= vis
    ensures Walk(sections, vis) == VariantsAcc(g, variants, 0, depth, Walk(sections0, vis0), excludeTitles)
    decreases |Titles(g) - visited|, 0
  {
    sections, vis := sections0, vis0;
    for j := 0 to |variants|
      invariant visited + {title} <= vis
      invariant VariantsAcc(g, variants, j, depth, Walk(sections, vis), excludeTitles) ==
        VariantsAcc(g, variants, 0, depth, Walk(sections0, vis0), excludeTitles)
    {
      var variant := variants[j];
      if g[variant].properties.Some? {
        MarkShrinks(Titles(g), visited, title, vis);
        var more, v := CollectSections(g, variant, depth + 1, vis, excludeTitles);
        sections, vis := sections + more, v;
      }
    }
  }
}
