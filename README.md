# A verified model of a schema-to-document compiler

This project models, in Dafny, the core of the documentation generator that turns a
dereferenced JSON-RPC API meta-schema (a JSON Schema document) into a Markdown document tree. It proves properties of that
model:

- **Type classifier and renderer** (`computeTypeKind`, `renderType`, src/util.ts).
  - A first-match-wins decision over a schema fragment gives one of six type kinds.
  - Each kind is rendered to a list of phrasing nodes.
- **Case helpers** (`toKebabCase`, `toTitleCase`, `makeAnchor`). These rewrite camelCase at every lower-to-upper ASCII boundary.
- **Section collector** (`extractFields`, `collectSections` in src/build-markdown.ts, and the older variant without an exclusion set in src/build.ts).
  - A depth-first, pre-order walk over the schema.
  - The `visited` set of titles makes it stop on cyclic schemas and never emit a title twice.
- **Table and section builders** (`buildFieldCell`, `buildTypeCell`, `buildDescriptionCell`, `buildTableRow`, `buildTable`, the node list of `renderSections`).
- **Version utilities**:
  - `parseVersionFromPath`, `replaceVersionComments` and the pure wiring of `build` (src/build-markdown.ts);
  - `compareSemver` (src/build-ghpages.ts);
  - the numeric directory filter, the dotted-numeric comparator and the latest-version selection (src/version.ts).

## How the model is laid out

- A dereferenced schema is a **graph** `map<NodeId, Node>`.
  - `properties`, `patternProperties`, `items` and `oneOf` hold node ids, not nested nodes.
  - As a result, the cyclic trees that shared references produce are represented faithfully.
  - `properties` and `patternProperties` are sequences of entries in declaration order.
  - `WellFormed` states that every id resolves and that the keys of `properties` and of `patternProperties` are distinct, as in a JSON object.
- **JavaScript truthiness** is written out:
  - an absent or empty `title`/`type`/`description` is falsy;
  - an object or array is truthy even when it is empty.
- **`collectSections` is modelled twice** (modules `Collect` and `LegacyCollect`).
  - First, as a specification, a family of recursive functions over an explicit `Walk` value holding the emitted sections and the visited set: `CollectWalk`, `FieldsAcc`, `FieldStep`, `BranchStep`, `VariantsAcc` and `PatternsAcc`.
  - Second, as methods with `for` loops with the same shape as the source's loops, each proved equal to its specification function.
  - Termination uses the number of titles in the graph that are not yet visited. Any call that recurses first adds a fresh title to the set.
- **`renderType`** recurses along union, array-item and map-value edges. It terminates only if those edges never cycle.
  - The model states that with `RenderOrdered`: every such child has a smaller id than its parent.
  - Cycles through object properties stay allowed, because the collector handles them with `visited`.
  - The union case with its local `parts` array is the method `RenderTypeParts` (with `RenderVariantParts`), proved equal to the function `RenderType`.
- **External libraries and I/O become parameters.**
  - The Markdown serializer, the table-of-contents insertion and the template read are function parameters of `BuildMarkdown.Build`.
  - The dereferenced schema is an `Option` parameter; `None` stands for a failed read or dereference.
- Two details of the source that the model follows as written:
  - **Field recursion.** The recursion into a field's children is an else-if chain (properties, then `items.properties`, then `items.oneOf`, then `oneOf`). At most one of those branches is taken per field. `patternProperties` is an additional, independent branch.
  - **Titled-primitive branch.** The branch of `computeTypeKind` for a titled primitive can never fire: any schema with both `title` and `type` is already classified by an earlier branch. The contract of `ComputeTypeKind` states this, and `UnknownWhenNoBranchMatches` gives the exact condition for `Unknown`.

## Model

| member | source | states |
|---|---|---|
| JsString.LowerChar | src/util.ts:25 | ASCII upper-case letters are lowered by 32 code points; every other char is unchanged; the result is never upper-case |
| JsString.UpperChar | src/util.ts:29 | ASCII lower-case letters are raised by 32 code points; every other char is unchanged; the result is never lower-case |
| JsString.ToLower | src/util.ts:25 | same length, char-wise `LowerChar`, no ASCII upper-case left |
| JsString.ToLowerIdempotent | src/util.ts:25 | lowering twice equals lowering once |
| JsString.Split | src/version.ts:15-16 | `split` on one char: at least one part; more than one part iff the separator occurs; no part holds the separator; re-joining gives the input |
| JsString.SplitWithoutSeparator | src/build-ghpages.ts:21-22 | a string without the separator splits to itself alone |
| JsString.SplitAfterPart | src/build-ghpages.ts:21-22 | splitting `p + sep + t` gives `p` followed by the parts of `t` |
| JsString.SplitUnique | src/version.ts:15-16 | splitting the join of separator-free parts gives those parts back (round trip) |
| JsString.DigitsHaveNoSeparators | src/version.ts:8 | a digit run holds neither `.` nor `-` |
| JsString.ToNumber | src/version.ts:15-16 | `Number()` on a component is a number exactly when the component is a digit run |
| JsString.StringLess | src/build-ghpages.ts:40-41 | JavaScript's `<` on the two tags, read lexicographically; `StringLessIrreflexive`, `StringLessAsymmetric` and `StringLessTotal` state that it is a strict total order |
| JsString.StringLessIrreflexive | src/build-ghpages.ts:40-41 | no tag is below itself in string order |
| JsString.StringLessAsymmetric | src/build-ghpages.ts:40-41 | string order never holds both ways |
| JsString.StringLessTotal | src/build-ghpages.ts:40-41 | two different tags are ordered one way or the other |
| JsString.IndexOf | src/build-markdown.ts:12-13 | the found position holds the pattern and no earlier position from `from` does; `None` means no position holds it |
| JsString.ReplaceFirst | src/build-markdown.ts:12-13 | a string-pattern `replace`: unchanged when the pattern does not occur, otherwise the first occurrence is spliced out for the replacement |
| JsString.FirstOccurrenceUnique | src/build-markdown.ts:12-13 | the first occurrence of a pattern is unique |
| JsString.ReplaceFirstKeepsLater | src/build-markdown.ts:12-13 | an occurrence after the first one survives the replacement, shifted by the length change |
| CaseHelpers.InsertSeparators | src/util.ts:24-29 | the global `/([a-z])([A-Z])/` replacement that resumes after each two-character match; `InsertSeparatorsAtEveryBoundary` states that it separates every lower-to-upper boundary |
| CaseHelpers.InsertSeparatorsAtEveryBoundary | src/util.ts:24-25 | the left-to-right non-overlapping regex scan inserts a separator at every lower-to-upper boundary (equal to the reference reading `SeparateBoundaries`) |
| CaseHelpers.InsertSeparatorsWithoutUpper | src/util.ts:24-25 | a string without ASCII upper-case letters is left unchanged |
| CaseHelpers.ToKebabCase | src/util.ts:24-25 | the kebab-case output holds no ASCII upper-case letter |
| CaseHelpers.ToKebabCaseIdempotent | src/util.ts:24-25 | kebab-casing twice equals kebab-casing once |
| CaseHelpers.ToTitleCase | src/util.ts:28-29 | the space-separated string with its first character upper-cased and the rest unchanged |
| CaseHelpers.StripObjectSuffix | src/util.ts:36 | `/-?object$/` removes a trailing `-object`, else a trailing `object`, else nothing |
| CaseHelpers.MakeAnchor | src/util.ts:32-38 | kebab title with the object suffix stripped, a hyphen, the kebab field name; no upper-case letter |
| CaseHelpers.InsertSeparatorsOneHump | src/util.ts:24-25 | a lower-case word followed by a capitalised word gets exactly one separator, between them |
| CaseHelpers.KebabOfOneHump | src/util.ts:24-25 | kebab-casing one camelCase hump is lowering the hyphenated words |
| CaseHelpers.TitleOfOneHump | src/util.ts:28-29 | title-casing one camelCase hump gives the capitalised first word, a space and the second word |
| CaseHelpers.KebabOfMethodObject | src/util.ts:24-25 | `methodObject` becomes `method-object` |
| CaseHelpers.MethodParamStructureAnchor | src/util.ts:32-38 | the anchor of title `methodObject` and field `paramStructure` is `method-param-structure` |
| Schema.Truthy | src/build-markdown.ts:61 | JavaScript truthiness of an optional string: present and non-empty |
| Schema.Narrow | src/build-markdown.ts:40-47 | the field schema copies exactly title, type, items, oneOf, properties and patternProperties |
| Schema.Lookup | src/build-markdown.ts:89 | `properties[name]`: a found id belongs to an entry with that key; `None` means no entry has it |
| Schema.LookupDistinct | src/build-markdown.ts:89 | with distinct keys, looking up the name of entry k yields entry k's node |
| Schema.HasExtensionPattern | src/build-markdown.ts:83 | `patternProperties?.["^x-"] !== undefined`: the pattern object exists and `Lookup` finds the `^x-` key in it |
| TypeKinds.NonExtensionPatterns | src/util.ts:130-132 | the filtered entries all avoid `^x-` and come from the input; empty iff every key is `^x-` |
| TypeKinds.FirstNonExtensionPattern | src/util.ts:130-134 | the first filtered entry is the first entry, in the model's entry order, whose key is not `^x-` |
| TypeKinds.ComputeTypeKind | src/util.ts:117-164 | oneOf iff a non-empty oneOf; `array` needs type `array` with items; `map` needs type `object` and a non-`^x-` pattern; an object has properties and a title; a primitive has a type and no properties |
| TypeKinds.OneOfTakesPrecedence | src/util.ts:119-121 | a non-empty oneOf classifies as a union whatever else is present |
| TypeKinds.ArrayWithoutItems | src/util.ts:123-146 | an array type without items falls through to primitive `array`, or to object/unknown when properties are present |
| TypeKinds.ArrayExactly | src/util.ts:119-126 | array kind iff no non-empty oneOf, type `array` and items present |
| TypeKinds.MapValueIsFirstNonExtension | src/util.ts:129-136 | the map value type is that of the first pattern entry whose key is not `^x-` |
| TypeKinds.OnlyExtensionPatternIsNotMap | src/util.ts:129-136 | a schema whose only pattern keys are `^x-` is not a map |
| TypeKinds.UnknownWhenNoBranchMatches | src/util.ts:139-163 | `unknown` exactly when none of the five reachable branches matches |
| TypeKinds.MapExample | src/util.ts:129-136 | `{type: object, patternProperties: {"^x-", "X-.*"}}` is a map of the `X-.*` value |
| Mdast.ParseMarkdownInline | src/util.ts:41-55 | empty input gives no nodes, and only empty input does |
| Mdast.HeadingNode | src/util.ts:89-96 | a heading of the given depth holding one text node |
| TypeRender.JoinAlternativesSnoc | src/util.ts:193-196 | appending a variant appends a separator (from the second one on) and its nodes |
| TypeRender.JoinAlternativesSeparators | src/util.ts:193-196 | n variant renderings free of separators are joined by exactly n - 1 separator nodes |
| TypeRender.RenderType | src/util.ts:166-203 | never empty; primitive is inline code; object is a link to `#kebab-title` with the title-cased title; array is `[`...`]`; map starts `Map[`, `string`, `, ` and ends `]`; unknown is `unknown` |
| TypeRender.Renderings | src/util.ts:193-196 | one rendering per variant, in order |
| TypeRender.RenderUnion | src/util.ts:191-198 | a union renders as its variants' renderings in order, joined by separators |
| TypeRender.RenderTypeParts | src/util.ts:166-203 | the imperative `renderType` yields exactly `RenderType` |
| TypeRender.RenderVariantParts | src/util.ts:191-198 | the `forEach` push loop yields the joined variant renderings |
| Tables.BuildFieldCell | src/util.ts:214-220 | an HTML anchor built from `MakeAnchor`, then the field name as text |
| Tables.BuildTypeCell | src/util.ts:222-224 | the cell holds the field type's rendering, which is never empty |
| Tables.BuildDescriptionCell | src/util.ts:226-236 | a required field gets `**REQUIRED**` and `. ` followed by the parsed description; any other field only the parsed description, which is empty when the description is absent or empty |
| Tables.BuildTableRow | src/util.ts:238-247 | three cells: field, type and description; the description cell starts with the marker when the field is required and is the parsed description alone otherwise |
| Tables.BuildTable | src/util.ts:249-267 | alignment left/center/left, the fixed header row, then row k + 1 built from field k; one row more than fields |
| Tables.BodyRows | src/util.ts:264 | one row per field, in field order |
| Tables.SectionNodes | src/util.ts:296-318 | the heading, the description paragraph iff the description is truthy, the table, the extensions notice iff flagged; only the first node is a heading |
| Tables.SectionHeadings | src/util.ts:296-298 | one heading per section at its depth with its display title |
| Tables.DocumentNodes | src/util.ts:287-320 | the `flatMap` over the sections: at least two nodes (heading and table) per section; `HeadingsFollowSections` states that its headings are exactly the sections' headings, in order |
| Tables.HeadingsFollowSections | src/util.ts:286-320 | the document's headings are exactly one per section, in section order |
| Collect.ExtractFields | src/build-markdown.ts:32-52 | one field per property in declaration order with its name, narrowed schema and description; required iff the name is in `required`; none without properties |
| Collect.TitleKey | src/build-markdown.ts:61 | `schema.title \|\| "object"`: the identity a node adds to `visited` is never empty |
| Collect.HeadingDepthAt | src/build-markdown.ts:73 | `min(depth + 1, 6)`, within 1..6 by its type |
| Collect.MakeSection | src/build-markdown.ts:76-85 | raw title is the key; title-cased display title; the given fields and depth; extensions flag iff the node's own patterns hold `^x-` |
| Collect.CollectWalk | src/build-markdown.ts:54-141 | after the walk the node's key is visited and nothing visited before is lost |
| Collect.FieldsAcc | src/build-markdown.ts:88-139 | the field loop only adds visited titles and appends sections |
| Collect.FieldStep | src/build-markdown.ts:88-138 | one field's step only adds visited titles and appends sections |
| Collect.BranchStep | src/build-markdown.ts:91-122 | the else-if chain only adds visited titles and appends sections |
| Collect.VariantsAcc | src/build-markdown.ts:105-111 | the variant loop only adds visited titles and appends sections |
| Collect.PatternsAcc | src/build-markdown.ts:125-138 | the pattern loop (skipping `^x-`) only adds visited titles and appends sections |
| Collect.CollectWalkShape | src/build-markdown.ts:61-85 | a visited key gives nothing and changes nothing; an excluded key or a node without fields gives nothing but is marked; otherwise the node's own section comes first |
| Collect.SelfReferenceYieldsOneSection | src/build-markdown.ts:61-67 | a schema whose property refers back to itself yields exactly one section and stops |
| Collect.CollectWalkExtends | src/build-markdown.ts:54-141 | visited only grows, within the graph's titles; every emitted section's title is newly visited, not excluded and at least the node's depth; titles are pairwise distinct |
| Collect.ChildExtends | src/build-markdown.ts:93-95 | a recursive call at depth + 1 preserves those invariants of the sections appended so far |
| Collect.FieldsAccExtends | src/build-markdown.ts:88-139 | the field loop preserves those invariants |
| Collect.FieldStepExtends | src/build-markdown.ts:88-138 | one field's step preserves those invariants |
| Collect.BranchStepExtends | src/build-markdown.ts:91-122 | the else-if chain preserves those invariants |
| Collect.VariantsAccExtends | src/build-markdown.ts:105-121 | the variant loops preserve those invariants |
| Collect.PatternsAccExtends | src/build-markdown.ts:125-138 | the pattern loop preserves those invariants |
| Collect.CollectSections | src/build-markdown.ts:54-141 | the imperative collector returns exactly the sections and visited set of `CollectWalk` |
| Collect.CollectField | src/build-markdown.ts:88-138 | one iteration of the field loop equals `FieldStep` and keeps the node's key visited |
| Collect.CollectVariants | src/build-markdown.ts:105-111 | a variant loop equals `VariantsAcc` |
| LegacyCollect.ToLegacy | src/build.ts:65-74 | the legacy record carries the raw title as `parentTitle` and otherwise the same data |
| LegacyCollect.ToLegacySections | src/build.ts:65-74 | section-wise `ToLegacy`, same length and order |
| LegacyCollect.LegacyCollectSections | src/build.ts:49-119 | the legacy collector equals the modern one with no exclusions, sections mapped to legacy records |
| LegacyCollect.LegacyCollectField | src/build.ts:77-117 | one legacy field iteration equals `FieldStep` with no exclusions |
| LegacyCollect.LegacyCollectVariants | src/build.ts:89-103 | a legacy variant loop equals `VariantsAcc` with no exclusions |
| LegacyCollect.LegacyBuildSections | src/build.ts:121-126 | the top-level call at depth 0 with an empty visited set; emitted `parentTitle`s are pairwise distinct |
| BuildMarkdown.RegexMatch | src/build-markdown.ts:144 | `/\/spec\/([\d.]+)\//` matching at a position with a capture of `n` characters: `/spec/`, then `n >= 1` characters of `[\d.]`, then `/`; `RegexMatchIsGreedy` shows that only the maximal run can be the capture |
| BuildMarkdown.VersionMatchAt | src/build-markdown.ts:144 | `/spec/` at the position, then a non-empty maximal `[\d.]` run, then `/`; `FindVersion` returns its leftmost position |
| BuildMarkdown.VersionRunLength | src/build-markdown.ts:144 | the longest run of digits and dots from a position |
| BuildMarkdown.RunLengthExact | src/build-markdown.ts:144 | a run of version chars ended by a non-version char or the end is the maximal run |
| BuildMarkdown.RegexMatchIsGreedy | src/build-markdown.ts:144 | the greedy `[\d.]+` match at `/spec/` succeeds iff the maximal run is non-empty and followed by `/` |
| BuildMarkdown.FindVersion | src/build-markdown.ts:144 | the leftmost position where `/spec/<run>/` matches, or `None` when there is none |
| BuildMarkdown.ParseVersionFromPath | src/build-markdown.ts:143-149 | an error naming the path iff nothing matches; otherwise the non-empty digits-and-dots run of the leftmost match |
| BuildMarkdown.ReplaceVersionComments | src/build-markdown.ts:12-13 | only the first `<!-- version -->` becomes `Version <version>`; no marker, no change |
| BuildMarkdown.OnlyFirstMarkerReplaced | src/build-markdown.ts:12-13 | a later marker is still present after the replacement |
| BuildMarkdown.BuildSections | src/build-markdown.ts:158-159 | `collectSections(schema, 0, new Set(), excludedTitles)` with `JSONSchemaObject` excluded; `BuildSectionsDistinct` states that its raw titles are distinct and never `JSONSchemaObject` |
| BuildMarkdown.BuildSectionsDistinct | src/build-markdown.ts:158-159 | sections of `build` have distinct raw titles and none is `JSONSchemaObject` |
| BuildMarkdown.Build | src/build-markdown.ts:151-172 | version error first, then schema error, otherwise the template, a newline and the serialized document, TOC-inserted, with `<version>.x` in the marker |
| Semver.Numbers | src/build-ghpages.ts:24-25 | `map(Number)`: one value per part |
| Semver.CoreNumbers | src/build-ghpages.ts:21-25 | the `Number` values of the dot-separated parts before the first `-`; `CoreOfRelease` gives them for `a.b.c` |
| Semver.Component | src/build-ghpages.ts:28-30 | `n[i]`, `undefined` (None) past the end |
| Semver.Greater | src/build-ghpages.ts:29-30 | `>` on values that may be NaN or `undefined`: true only when both are numbers and the first is larger |
| Semver.PreTag | src/build-ghpages.ts:21-22 | there is a second `-` segment iff the version holds a `-` |
| Semver.CompareCore | src/build-ghpages.ts:28-31 | the numeric core comparison lies in {-1, 0, 1} |
| Semver.ComparePre | src/build-ghpages.ts:35-43 | a tagged version is below an untagged one; two untagged are equal; two tags compare by string order, both directions |
| Semver.SemverOrder | src/build-ghpages.ts:19-44 | the result lies in {-1, 0, 1} |
| Semver.CompareSemver | src/build-ghpages.ts:19-44 | the loop with early returns computes `SemverOrder` |
| Semver.CompareCoreReflexive | src/build-ghpages.ts:28-31 | a core compares equal to itself, NaN components included |
| Semver.CompareCoreAntisymmetric | src/build-ghpages.ts:28-31 | swapping the cores negates the comparison |
| Semver.SemverReflexive | src/build-ghpages.ts:19-44 | `compareSemver(v, v) == 0` for every string |
| Semver.SemverAntisymmetric | src/build-ghpages.ts:19-44 | `compareSemver(a, b) == -compareSemver(b, a)` for every pair |
| Semver.ReleaseAbovePreRelease | src/build-ghpages.ts:35-37 | with the same dash-free core, the release is above every pre-release whose tag segment is non-empty, whatever follows a second `-` |
| Semver.TagIsFirstSegmentOnly | src/build-ghpages.ts:21-22 | segments after a second `-` are ignored |
| Semver.FirstDifferenceDecides | src/build-ghpages.ts:28-31 | the first component where one is greater decides |
| Semver.CoreOfRelease | src/build-ghpages.ts:24-25 | the core numbers of `a.b.c` are the numbers of `a`, `b` and `c` |
| Semver.MinorDecides | src/build-ghpages.ts:28-31 | equal major and patch: the numerically greater minor wins (so `1.10.0` is above `1.9.0`) |
| Semver.TenAboveNine | src/build-ghpages.ts:28-31 | `compareSemver("1.10.0", "1.9.0") == 1`, although `"10"` is below `"9"` as text |
| Versions.IsNumericVersionName | src/version.ts:8 | the `/^\d+(\.\d+)*$/` test as: every dot-separated part is a non-empty digit run; `NumericNameIsJoinOfDigitRuns` and `NumericNameParts` state the grammar reading |
| Versions.NumericNameIsJoinOfDigitRuns | src/version.ts:8 | dot-joined non-empty digit runs match `^\d+(\.\d+)*$`, and split back to those runs |
| Versions.NumericNameParts | src/version.ts:8 | a numeric name is the dot-join of its parts |
| Versions.GetAllRecentVersions | src/version.ts:27-33 | exactly the numeric directory names, no more than the entries; empty iff there is none |
| Versions.RecentVersionsAppend | src/version.ts:29-31 | the filter keeps listing order (it distributes over concatenation) |
| Versions.VersionParts | src/version.ts:15-16 | one number per dot-separated part, its decimal value |
| Versions.VersionDiff | src/version.ts:17-21 | the comparator from index `i` on, with `?? 0` padding: the first non-zero difference, or 0; `VersionDiffZeroIff` states when it is 0 |
| Versions.VersionDiffZeroIff | src/version.ts:17-21 | the comparator is 0 exactly when every component from `i` agrees, a missing one counting as 0 |
| Versions.CompareVersionNames | src/version.ts:14-22 | the comparator's index loop with early return equals `VersionDiff` |
| Versions.VersionDiffAntisymmetric | src/version.ts:14-22 | swapping the names negates the comparator |
| Versions.TrailingZeroIgnored | src/version.ts:17-18 | a missing component counts as 0, so a trailing `.0` changes nothing |
| Versions.OneFourEqualsOneFourZero | src/version.ts:14-22 | `1.4` and `1.4.0` compare equal |
| Versions.VersionDiffTransitive | src/version.ts:14-22 | the comparator's "not above" is transitive |
| Versions.CompareNamesFlip | src/version.ts:14-22 | the comparator on names is antisymmetric |
| Versions.CompareNamesTransitive | src/version.ts:14-22 | the comparator on names is transitive |
| Versions.LatestIndex | src/version.ts:14-24 | the position `numeric[numeric.length - 1]` holds after a stable sort, within range; `LatestIsGreatest` and `LatestIsLastGreatest` state that it is the last of the greatest names |
| Versions.LatestIsGreatest | src/version.ts:14-24 | no name compares above the selected one |
| Versions.LatestIsLastGreatest | src/version.ts:14-24 | every name after the selected one compares strictly below it |
| Versions.DiscoverLatestVersion | src/version.ts:5-25 | an error iff no numeric directory exists; otherwise a listed numeric name that none exceeds and that is the last of the greatest |

## Left out

- Dereferencing the schema with the external dereferencer (src/build-markdown.ts:16-29, src/build.ts:13-23) is a foreign asynchronous library. The model takes the dereferenced graph as input; a failed read or dereference is `None`.
- All filesystem I/O is left out: the template read (a function parameter of `Build`), `readdir` (a listing parameter), and `writeFile`.
- The Markdown libraries are left out:
  - `fromMarkdown` inside `parseMarkdownInline` is an opaque node, except that empty input gives no nodes;
  - `toMarkdown`/`renderTable` are a serializer parameter;
  - `markdown-toc` insertion is a parameter.
- The rest of src/build-ghpages.ts is left out: releases download, directory copies and `Promise.all` orchestration are I/O and concurrency.
- src/generate-index.ts, src/build-legacy-markdown.ts, src/build-bundle.ts, src/build-main.ts, src/index.ts and src/types.d.ts are I/O wrappers or declarations, and are not part of this model.
- The legacy `build` of src/build.ts passes its sections (which carry `parentTitle`) to `renderSections`, which reads `schemaTitleRaw`. That rendering step is not modelled; `LegacyBuildSections` stops at the collected sections.
- Versions.DiscoverLatestVersion: the in-place `Array.prototype.sort` (the engine's sort algorithm) is not modelled. `LatestIndex` computes the element a stable sort leaves last: the last of the greatest names. Under a non-stable sort the returned name could be a different but equal-comparing one.
- TypeRender.RenderType: requires `RenderOrdered` of the whole graph: every union, array-item and map-value child has a smaller id than its parent. A graph without a cycle through those edges can be renumbered to meet it, and one with such a cycle cannot; the model does not prove that its promises survive such a renumbering. So it promises nothing for a render-acyclic graph whose ids are not numbered downward along those edges. On a cycle that a rendered field schema reaches, the source recurses until the stack overflows, which is not modelled. It also promises nothing for graphs whose render cycles no field schema reaches, although the source renders those without trouble. The `Tables` builders that call it (`BuildTypeCell`, `BuildTableRow`, `BodyRows`, `BuildTable`, `DocumentNodes`) carry the same requirement.
- BuildMarkdown.Build: requires `RenderOrdered` of the given schema, with the same consequences: no promise for a render-acyclic schema with ids numbered the other way, nor for one whose only render cycles are never rendered.
- JsString.LowerChar: only ASCII letters are lowered. The Unicode case mapping of `toLowerCase` is not modelled.
- JsString.UpperChar: only ASCII letters are raised. The Unicode case mapping of `toUpperCase` is not modelled.
- JsString.ToNumber: a digit run gives its exact value. `Number` returns an IEEE double, so a run above 2^53 is rounded to the nearest double and a very long run becomes `Infinity`; that rounding is not modelled. For example `"9007199254740993"` and `"9007199254740992"` compare equal in the source and differ by one in the model.
- Versions.VersionParts: the parts are exact values of the digit runs, not the doubles `Number` rounds them to (see `JsString.ToNumber`), so `CompareVersionNames` may order two names whose parts exceed 2^53 that the source finds equal.
- Semver.Numbers: the core numbers are exact values, not doubles, for the same reason.
- JsString.StringLess: compares Dafny chars, which are Unicode code points, whereas JavaScript's `<` compares UTF-16 code units. The two orders differ when a character in U+E000 to U+FFFF meets a character above U+FFFF; the pre-release tag comparison of `Semver.ComparePre` inherits the difference.
- JsString.ToNumber: only digit strings, including the empty string (`Number("") == 0`), are numbers. Every other component is NaN. `Number`'s whitespace trimming, signs, exponents and hexadecimal forms are not modelled.
- BuildMarkdown.ReplaceVersionComments: `$` patterns in the replacement string are not interpreted. The only caller passes digits, dots and `.x`.
- Collect.ExtractFields: `Object.entries` lists integer-like keys first, in numeric order. That ordering is not modelled; entries keep declaration order.
- Collect.PatternsAcc: the `Object.entries` walk over `patternProperties` (src/build-markdown.ts:125) keeps declaration order too, not the integer-like-keys-first order.
- TypeKinds.FirstNonExtensionPattern: `patterns[0]` of src/util.ts:130 is taken in declaration order, not the integer-like-keys-first order of `Object.entries`.
- TypeKinds.MapValueIsFirstNonExtension: the map value is the first non-`^x-` pattern in declaration order, for the same reason.
- Collect.CollectSections: the shared mutable `Set` is passed in and returned as a value. The source shares one set object only along a single call chain, so threading it is equivalent; object identity is not modelled.
