/** The dereferenced JSON Schema the compiler reads. Shared references make it a graph, so a
    node refers to its children by id; the graph may be cyclic. */
module Schema {
  import opened Wrappers

  type NodeId = nat

  /** One schema fragment; only the keywords the compiler reads. An entry list keeps the
      declaration order of a JSON object's keys. */
  datatype Node = Node(
    title: Option<string>,
    typ: Option<string>,
    properties: Option<seq<(string, NodeId)>>,
    required: Option<seq<string>>,
    items: Option<NodeId>,
    oneOf: Option<seq<NodeId>>,
    patternProperties: Option<seq<(string, NodeId)>>,
    description: Option<string>)

  type Graph = map<NodeId, Node>

  /** `TypeInfo` of src/util.ts:100-107: the keywords the type classifier looks at. */
  datatype TypeInfo = TypeInfo(
    title: Option<string>,
    typ: Option<string>,
    items: Option<NodeId>,
    oneOf: Option<seq<NodeId>>,
    properties: Option<seq<(string, NodeId)>>,
    patternProperties: Option<seq<(string, NodeId)>>)

  /** A node seen through the `TypeInfo` interface (the narrowing of a field's schema). */
  function Narrow(n: Node): (t: TypeInfo)
    ensures t.title == n.title && t.typ == n.typ && t.items == n.items && t.oneOf == n.oneOf
    ensures t.properties == n.properties && t.patternProperties == n.patternProperties
  {
    TypeInfo(n.title, n.typ, n.items, n.oneOf, n.properties, n.patternProperties)
  }

  /** JavaScript truthiness of an optional string: absent and "" are both falsy. */
  predicate Truthy(o: Option<string>) { o.Some? && o.value != "" }

  /** The reserved pattern key for specification extensions. */
  const ExtensionPattern: string := "^x-"

  predicate EntriesIn(g: Graph, entries: Option<seq<(string, NodeId)>>) {
    entries.Some? ==> forall k :: 0 <= k < |entries.value| ==> entries.value[k].1 in g
  }

  /** Every reference of `t` resolves in `g`. */
  predicate InfoIn(g: Graph, t: TypeInfo) {
    (t.items.Some? ==> t.items.value in g) &&
    (t.oneOf.Some? ==> forall k :: 0 <= k < |t.oneOf.value| ==> t.oneOf.value[k] in g) &&
    EntriesIn(g, t.properties) && EntriesIn(g, t.patternProperties)
  }

  /** Keys of a JSON object are unique. */
  predicate DistinctKeys(entries: seq<(string, NodeId)>) {
    forall i, j :: 0 <= i < j < |entries| ==> entries[i].0 != entries[j].0
  }

  /** What dereferencing guarantees: no dangling reference, and `properties` and
      `patternProperties` are objects, so their keys are distinct. */
  predicate WellFormed(g: Graph) {
    forall id :: id in g ==>
      InfoIn(g, Narrow(g[id])) &&
      (g[id].properties.Some? ==> DistinctKeys(g[id].properties.value)) &&
      (g[id].patternProperties.Some? ==> DistinctKeys(g[id].patternProperties.value))
  }

  /** `object[key]` on an entry list: the value of the first entry with that key. */
  function Lookup(entries: seq<(string, NodeId)>, key: string): (r: Option<NodeId>)
    ensures r.Some? ==> exists k :: 0 <= k < |entries| && entries[k] == (key, r.value)
    ensures r.None? ==> forall k :: 0 <= k < |entries| ==> entries[k].0 != key
  {
    if |entries| == 0 then None
    else if entries[0].0 == key then Some(entries[0].1)
    else Lookup(entries[1..], key)
  }

  /** With unique keys, looking up the key of entry `k` finds entry `k`'s value. */
  lemma {:induction false} LookupDistinct(entries: seq<(string, NodeId)>, k: nat)
    requires DistinctKeys(entries) && k < |entries|
    ensures Lookup(entries, entries[k].0) == Some(entries[k].1)
  {
    if k > 0 {
      assert entries[0].0 != entries[k].0;
      assert entries[1..][k - 1] == entries[k];
      LookupDistinct(entries[1..], k - 1);
    }
  }

  /** The key `^x-` is declared. */
  predicate HasExtensionPattern(patterns: Option<seq<(string, NodeId)>>) {
    patterns.Some? && Lookup(patterns.value, ExtensionPattern).Some?
  }
}
