/** `renderType` of src/util.ts:166-203: the phrasing nodes of a field's Type cell. */
module TypeRender {
  import opened Wrappers
  import opened Schema
  import opened TypeKinds
  import opened CaseHelpers
  import opened Mdast

  /** The nodes `renderType` recurses into for a fragment of this kind. */
  function RenderChildren(t: TypeInfo): seq<NodeId>
  {
    match ComputeTypeKind(t)
    case OneOf(variants) => variants
    case Array(items) => [items]
    case Map(valueType) => [valueType]
    case _ => []
  }

  /** `renderType` stops only if following union variants, array items and map values never
      comes back to a node; numbering every such child below its parent says so. Cycles through
      object links (and through the collector's edges) remain allowed. */
  predicate RenderOrdered(g: Graph) {
    WellFormed(g) &&
    forall id :: id in g ==>
      forall k :: 0 <= k < |RenderChildren(Narrow(g[id]))| ==> RenderChildren(Narrow(g[id]))[k] < id
  }

  function MaxId(s: seq<NodeId>): (m: nat)
    ensures forall k :: 0 <= k < |s| ==> s[k] <= m
    ensures |s| > 0 ==> exists k :: 0 <= k < |s| && s[k] == m
  {
    if |s| == 0 then 0
    else
      var rest := MaxId(s[1..]);
      assert forall k :: 1 <= k < |s| ==> s[k] == s[1..][k - 1];
      if |s| == 1 || s[0] >= rest then s[0] else rest
  }

  /** Termination measure of `renderType`: one more than its largest child id. */
  function Rank(t: TypeInfo): nat {
    if |RenderChildren(t)| == 0 then 0 else 1 + MaxId(RenderChildren(t))
  }

  lemma RanksBelowIds(g: Graph)
    requires RenderOrdered(g)
    ensures forall id :: id in g ==> Rank(Narrow(g[id])) <= id
  {
    forall id | id in g ensures Rank(Narrow(g[id])) <= id {
      var cs := RenderChildren(Narrow(g[id]));
      if |cs| > 0 {
        var k :| 0 <= k < |cs| && cs[k] == MaxId(cs);
      }
    }
  }

  /** The children `renderType` visits resolve in the graph. */
  lemma RenderChildrenIn(g: Graph, t: TypeInfo)
    requires InfoIn(g, t)
    ensures forall k :: 0 <= k < |RenderChildren(t)| ==> RenderChildren(t)[k] in g
  {
    match ComputeTypeKind(t)
    case Map(v) =>
      var key :| key != ExtensionPattern && (key, v) in t.patternProperties.value;
      var k :| 0 <= k < |t.patternProperties.value| && t.patternProperties.value[k] == (key, v);
    case _ =>
  }

  /** Every child `renderType` visits resolves and ranks strictly below its parent. */
  lemma ChildrenRanked(g: Graph, t: TypeInfo)
    requires RenderOrdered(g) && InfoIn(g, t)
    ensures forall k :: 0 <= k < |RenderChildren(t)| ==>
      RenderChildren(t)[k] in g && Rank(Narrow(g[RenderChildren(t)[k]])) < Rank(t)
  {
    RanksBelowIds(g);
    RenderChildrenIn(g, t);
  }

  const Separator: Phrasing := Text(" | ")

  /** The renderings of a union's variants, in order, with `" | "` between neighbours. */
  function JoinAlternatives(parts: seq<seq<Phrasing>>): seq<Phrasing>
  {
    if |parts| == 0 then []
    else if |parts| == 1 then parts[0]
    else parts[0] + [Separator] + JoinAlternatives(parts[1..])
  }

  /** Appending one more variant adds a separator (unless it is the first) and its nodes. */
  lemma {:induction false} JoinAlternativesSnoc(parts: seq<seq<Phrasing>>, p: seq<Phrasing>)
    ensures JoinAlternatives(parts + [p]) ==
      JoinAlternatives(parts) + (if |parts| > 0 then [Separator] else []) + p
  {
    if |parts| > 1 {
      assert (parts + [p])[1..] == parts[1..] + [p];
      JoinAlternativesSnoc(parts[1..], p);
    }
  }

  /** n variants whose own renderings hold no separator are joined by exactly n - 1 of them. */
  lemma {:induction false} JoinAlternativesSeparators(parts: seq<seq<Phrasing>>)
    requires |parts| > 0
    requires forall k :: 0 <= k < |parts| ==> Separator !in parts[k]
    ensures multiset(JoinAlternatives(parts))[Separator] == |parts| - 1
  {
    if |parts| > 1 {
      JoinAlternativesSeparators(parts[1..]);
      assert multiset(parts[0])[Separator] == 0;
    } else {
      assert multiset(parts[0])[Separator] == 0;
    }
  }

  /** `renderType`, as a function of the graph and the fragment. */
  function RenderType(g: Graph, t: TypeInfo): (r: seq<Phrasing>)
    requires RenderOrdered(g) && InfoIn(g, t)
    ensures |r| > 0
    ensures ComputeTypeKind(t).Primitive? ==> r == [InlineCode(ComputeTypeKind(t).typeName)]
    ensures ComputeTypeKind(t).Object? ==>
      var title := ComputeTypeKind(t).title;
      r == [Link("#" + ToKebabCase(title), [Text(ToTitleCase(title))])]
    ensures ComputeTypeKind(t).Array? ==> |r| >= 3 && r[0] == Text("[") && r[|r| - 1] == Text("]")
    ensures ComputeTypeKind(t).Map? ==>
      |r| >= 5 && r[..3] == [Text("Map["), InlineCode("string"), Text(", ")] && r[|r| - 1] == Text("]")
    ensures ComputeTypeKind(t).Unknown? ==> r == [Text("unknown")]
    decreases Rank(t)
  {
    ChildrenRanked(g, t);
    match ComputeTypeKind(t)
    case Primitive(name) => [InlineCode(name)]
    case Object(title) => [Link("#" + ToKebabCase(title), [Text(ToTitleCase(title))])]
    case Array(items) =>
      assert RenderChildren(t) == [items];
      [Text("[")] + RenderType(g, Narrow(g[items])) + [Text("]")]
    case Map(valueType) =>
      assert RenderChildren(t) == [valueType];
      [Text("Map["), InlineCode("string"), Text(", ")] + RenderType(g, Narrow(g[valueType])) + [Text("]")]
    case OneOf(variants) =>
      JoinAlternatives(seq(|variants|, k requires 0 <= k < |variants| => RenderType(g, Narrow(g[variants[k]]))))
    case Unknown => [Text("unknown")]
  }

  /** The renderings of a list of variants, one per variant. */
  function Renderings(g: Graph, variants: seq<NodeId>): (r: seq<seq<Phrasing>>)
    requires RenderOrdered(g) && forall k :: 0 <= k < |variants| ==> variants[k] in g
    ensures |r| == |variants|
    ensures forall k :: 0 <= k < |variants| ==> r[k] == RenderType(g, Narrow(g[variants[k]]))
  {
    seq(|variants|, k requires 0 <= k < |variants| => RenderType(g, Narrow(g[variants[k]])))
  }

  lemma RenderingsSnoc(g: Graph, variants: seq<NodeId>, i: nat)
    requires RenderOrdered(g) && forall k :: 0 <= k < |variants| ==> variants[k] in g
    requires i < |variants|
    ensures Renderings(g, variants[..i + 1]) ==
      Renderings(g, variants[..i]) + [RenderType(g, Narrow(g[variants[i]]))]
  {
    var a, b := Renderings(g, variants[..i + 1]), Renderings(g, variants[..i]);
    assert forall k :: 0 <= k < i ==> a[k] == b[k];
  }

  /** A union renders as its variants' renderings, in order, joined by `" | "`. */
  lemma RenderUnion(g: Graph, t: TypeInfo)
    requires RenderOrdered(g) && InfoIn(g, t) && ComputeTypeKind(t).OneOf?
    ensures forall k :: 0 <= k < |t.oneOf.value| ==> t.oneOf.value[k] in g
    ensures RenderType(g, t) == JoinAlternatives(Renderings(g, t.oneOf.value))
  {
  }

  /** `renderType` as the source runs it: the union case pushes each variant's nodes onto a
      local list, preceded by a separator from the second variant on. */
  method RenderTypeParts(g: Graph, t: TypeInfo) returns (r: seq<Phrasing>)
    requires RenderOrdered(g) && InfoIn(g, t)
    ensures r == RenderType(g, t)
    decreases Rank(t), 1
  {
    ChildrenRanked(g, t);
    var typeKind := ComputeTypeKind(t);
    match typeKind {
      case Primitive(name) =>
        r := [InlineCode(name)];
      case Object(title) =>
        var display := ToTitleCase(title);
        var anchor := "#" + ToKebabCase(title);
        r := [Link(anchor, [Text(display)])];
      case Array(items) =>
        assert RenderChildren(t) == [items];
        var inner := RenderTypeParts(g, Narrow(g[items]));
        r := [Text("[")] + inner + [Text("]")];
      case Map(valueType) =>
        assert RenderChildren(t) == [valueType];
        var inner := RenderTypeParts(g, Narrow(g[valueType]));
        r := [Text("Map["), InlineCode("string"), Text(", ")] + inner + [Text("]")];
      case OneOf(variants) =>
        r := RenderVariantParts(g, t, variants);
        RenderUnion(g, t);
      case Unknown =>
        r := [Text("unknown")];
    }
  }

  /** The union loop of `renderType`: each variant's nodes, with a separator before every
      variant but the first. */
  method RenderVariantParts(g: Graph, ghost t: TypeInfo, variants: seq<NodeId>) returns (parts: seq<Phrasing>)
    requires RenderOrdered(g) && InfoIn(g, t) && RenderChildren(t) == variants
    ensures forall k :: 0 <= k < |variants| ==> variants[k] in g
    ensures parts == JoinAlternatives(Renderings(g, variants))
    decreases Rank(t), 0
  {
    ChildrenRanked(g, t);
    parts := [];
    for i := 0 to |variants|
      invariant parts == JoinAlternatives(Renderings(g, variants[..i]))
    {
      var piece := RenderTypeParts(g, Narrow(g[variants[i]]));
      RenderingsSnoc(g, variants, i);
      JoinAlternativesSnoc(Renderings(g, variants[..i]), piece);
      if i > 0 {
        parts := parts + [Separator];
      }
      parts := parts + piece;
    }
    assert variants[..|variants|] == variants;
  }
}
