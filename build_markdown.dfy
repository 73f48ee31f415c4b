/** The pure parts of src/build-markdown.ts around the collector: the version found in the
    schema's path, the version marker in the template, and the wiring of `build`. */
module BuildMarkdown {
  import opened Wrappers
  import opened JsString
  import opened Schema
  import opened Mdast
  import opened TypeRender
  import opened Tables
  import opened Collect

  const SpecSegment: string := "/spec/"
  const VersionMarker: string := "<!-- version -->"
  /** The titles `build` never emits a section for. */
  const ExcludedTitles: set<string> := {"JSONSchemaObject"}

  /** A character of the class `[\d.]`. */
  predicate IsVersionChar(c: char) { IsDigit(c) || c == '.' }

  /** The length of the longest run of `[\d.]` characters starting at `i`. */
  function VersionRunLength(s: string, i: nat): (n: nat)
    requires i <= |s|
    ensures i + n <= |s|
    ensures forall k :: i <= k < i + n ==> IsVersionChar(s[k])
    ensures i + n < |s| ==> !IsVersionChar(s[i + n])
    decreases |s| - i
  {
    if i < |s| && IsVersionChar(s[i]) then 1 + VersionRunLength(s, i + 1) else 0
  }

  /** `/\/spec\/([\d.]+)\//` matches at `p` capturing the `n` characters after `/spec/`. */
  predicate RegexMatch(s: string, p: nat, n: nat) {
    OccursAt(s, SpecSegment, p) && n > 0 && p + 6 + n < |s| && s[p + 6 + n] == '/' &&
    forall k :: p + 6 <= k < p + 6 + n ==> IsVersionChar(s[k])
  }

  /** The greedy match at `p`: the whole run after `/spec/` must be followed by `/`. */
  predicate VersionMatchAt(s: string, p: nat) {
    OccursAt(s, SpecSegment, p) &&
    var n := VersionRunLength(s, p + 6);
    n > 0 && p + 6 + n < |s| && s[p + 6 + n] == '/'
  }

  /** A run of `n` version characters ended by the end of `s` or by another character has
      length `n`. */
  lemma {:induction false} RunLengthExact(s: string, i: nat, n: nat)
    requires i + n <= |s| && forall k :: i <= k < i + n ==> IsVersionChar(s[k])
    requires i + n == |s| || !IsVersionChar(s[i + n])
    ensures VersionRunLength(s, i) == n
    decreases n
  {
    if n > 0 {
      RunLengthExact(s, i + 1, n - 1);
    }
  }

  /** Backtracking never finds another capture: a match at `p` exists exactly when the
      greedy one does, and its capture is the whole run. */
  lemma RegexMatchIsGreedy(s: string, p: nat, n: nat)
    ensures RegexMatch(s, p, n) ==> VersionMatchAt(s, p) && n == VersionRunLength(s, p + 6)
    ensures VersionMatchAt(s, p) ==> RegexMatch(s, p, VersionRunLength(s, p + 6))
  {
    if RegexMatch(s, p, n) {
      RunLengthExact(s, p + 6, n);
    }
  }

  /** The leftmost position at or after `p` where the pattern matches. */
  function FindVersion(s: string, p: nat): (r: Option<nat>)
    ensures r.Some? ==> p <= r.value && VersionMatchAt(s, r.value)
    ensures r.Some? ==> forall q: nat :: p <= q < r.value ==> !VersionMatchAt(s, q)
    ensures r.None? ==> forall q: nat :: p <= q ==> !VersionMatchAt(s, q)
    decreases |s| - p
  {
    if p + 6 >= |s| then None
    else if VersionMatchAt(s, p) then Some(p)
    else FindVersion(s, p + 1)
  }

  datatype BuildError = VersionNotFound(path: string) | SchemaNotFound(path: string)

  /** `parseVersionFromPath`, src/build-markdown.ts:143-149: the `[\d.]+` run of the leftmost
      `/spec/<run>/` in the path, or an error when there is none. */
  function ParseVersionFromPath(path: string): (r: Result<string, BuildError>)
    ensures r.Err? <==> forall p: nat :: !VersionMatchAt(path, p)
    ensures r.Err? ==> r.error == VersionNotFound(path)
    ensures r.Ok? ==> exists p: nat ::
      VersionMatchAt(path, p) && (forall q: nat :: q < p ==> !VersionMatchAt(path, q)) &&
      r.value == path[p + 6..p + 6 + VersionRunLength(path, p + 6)]
    ensures r.Ok? ==> |r.value| > 0 && forall k :: 0 <= k < |r.value| ==> IsVersionChar(r.value[k])
  {
    match FindVersion(path, 0)
    case None => Err(VersionNotFound(path))
    case Some(p) =>
      var v := path[p + 6..p + 6 + VersionRunLength(path, p + 6)];
      assert forall k :: 0 <= k < |v| ==> v[k] == path[p + 6 + k];
      Ok(v)
  }

  /** `replaceVersionComments`, src/build-markdown.ts:12-13. */
  function ReplaceVersionComments(s: string, version: string): (r: string)
    ensures (forall j: nat :: !OccursAt(s, VersionMarker, j)) ==> r == s
    ensures forall i: nat :: FirstOccurrence(s, VersionMarker, i) ==>
      r == s[..i] + "Version " + version + s[i + |VersionMarker|..]
  {
    ReplaceFirst(s, VersionMarker, "Version " + version)
  }

  /** A second marker after the first survives the replacement. */
  lemma OnlyFirstMarkerReplaced(s: string, version: string, i: nat, j: nat)
    requires FirstOccurrence(s, VersionMarker, i) && i + |VersionMarker| <= j && OccursAt(s, VersionMarker, j)
    ensures OccursAt(ReplaceVersionComments(s, version), VersionMarker,
                     j - |VersionMarker| + |"Version " + version|)
  {
    ReplaceFirstKeepsLater(s, VersionMarker, "Version " + version, i, j);
  }

  /** The sections `build` renders, src/build-markdown.ts:158-159. */
  function BuildSections(g: Graph, root: NodeId): (sections: seq<Section>)
    requires WellFormed(g) && root in g
  {
    CollectWalk(g, root, 0, {}, ExcludedTitles).sections
  }

  /** The document never holds a section for `JSONSchemaObject`, nor two sections for one
      title, and every section can be rendered against the graph. */
  lemma BuildSectionsDistinct(g: Graph, root: NodeId)
    requires WellFormed(g) && root in g
    ensures BuildSectionsDistinctAt(g, root)
    ensures forall k :: 0 <= k < |BuildSections(g, root)| ==>
      BuildSections(g, root)[k].schemaTitleRaw != "JSONSchemaObject"
  {
    CollectWalkExtends(g, root, 0, {}, ExcludedTitles);
  }

  /** The dereferenced schema handed to `build`: a graph and its root node. */
  datatype SchemaDoc = SchemaDoc(graph: Graph, root: NodeId)

  /** `build`, src/build-markdown.ts:151-172. Dereferencing, reading the template, Markdown
      serialisation and table-of-contents insertion are outside the model and come in as
      `schema`, `readTemplate`, `serialize` and `insertToc`. */
  method Build(path: string, schema: Option<SchemaDoc>, readTemplate: string -> string,
               serialize: seq<Block> -> string, insertToc: string -> string)
    returns (r: Result<string, BuildError>)
    requires schema.Some? ==> RenderOrdered(schema.value.graph) && schema.value.root in schema.value.graph
    ensures ParseVersionFromPath(path).Err? ==> r == Err(VersionNotFound(path))
    ensures ParseVersionFromPath(path).Ok? && schema.None? ==> r == Err(SchemaNotFound(path))
    ensures ParseVersionFromPath(path).Ok? && schema.Some? ==>
      var version := ParseVersionFromPath(path).value;
      var g, root := schema.value.graph, schema.value.root;
      BuildSectionsDistinctAt(g, root) &&
      r == Ok(ReplaceVersionComments(
        insertToc(readTemplate(version) + "\n" + serialize(DocumentNodes(g, BuildSections(g, root)))),
        version + ".x"))
  {
    var parsed := ParseVersionFromPath(path);
    if parsed.Err? {
      return Err(parsed.error);
    }
    var version := parsed.value;
    if schema.None? {
      return Err(SchemaNotFound(path));
    }
    var g, root := schema.value.graph, schema.value.root;
    var sections, _ := CollectSections(g, root, 0, {}, ExcludedTitles);
    BuildSectionsDistinct(g, root);
    var markdown := serialize(DocumentNodes(g, sections));
    var preamble := readTemplate(version);
    var composed := preamble + "\n" + markdown;
    var withToc := insertToc(composed);
    r := Ok(ReplaceVersionComments(withToc, version + ".x"));
  }

  /** The sections of `build` can be rendered, avoid the excluded titles and have pairwise
      distinct titles. */
  predicate BuildSectionsDistinctAt(g: Graph, root: NodeId)
    requires WellFormed(g) && root in g
  {
    var sections := BuildSections(g, root);
    SectionsIn(g, sections) &&
    (forall k :: 0 <= k < |sections| ==> sections[k].schemaTitleRaw !in ExcludedTitles) &&
    (forall i, j :: 0 <= i < j < |sections| ==> sections[i].schemaTitleRaw != sections[j].schemaTitleRaw)
  }
}
