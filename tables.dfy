/** Table and section node building of src/util.ts:205-323: fields and sections become
    headings, paragraphs and a three-column table, in order. */
module Tables {
  import opened Wrappers
  import opened Schema
  import opened CaseHelpers
  import opened Mdast
  import opened TypeRender

  /** `FieldDef`, src/util.ts:207-212. */
  datatype FieldDef = FieldDef(name: string, schema: TypeInfo, description: Option<string>, required: bool)

  /** `Section`, src/util.ts:277-284. */
  datatype Section = Section(
    title: string,
    schemaTitleRaw: string,
    fields: seq<FieldDef>,
    headingDepth: HeadingDepth,
    description: Option<string>,
    hasSpecExtensions: bool)

  /** Every field's type can be rendered against `g`. */
  predicate FieldsIn(g: Graph, fields: seq<FieldDef>) {
    forall k :: 0 <= k < |fields| ==> InfoIn(g, fields[k].schema)
  }

  predicate SectionsIn(g: Graph, sections: seq<Section>) {
    forall k :: 0 <= k < |sections| ==> FieldsIn(g, sections[k].fields)
  }

  /** `buildFieldCell`, src/util.ts:214-220: an HTML anchor, then the field name. */
  function BuildFieldCell(schemaTitleRaw: string, fieldName: string): (c: TableCell)
    ensures |c.children| == 2 && c.children[1] == Text(fieldName)
    ensures c.children[0] == Html("<a name=\"" + MakeAnchor(schemaTitleRaw, fieldName) + "\"></a>")
  {
    var anchor := MakeAnchor(schemaTitleRaw, fieldName);
    TableCell([Html("<a name=\"" + anchor + "\"></a>"), Text(fieldName)])
  }

  /** `buildTypeCell`, src/util.ts:222-224. */
  function BuildTypeCell(g: Graph, schema: TypeInfo): (c: TableCell)
    requires RenderOrdered(g) && InfoIn(g, schema)
    ensures c.children == RenderType(g, schema) && |c.children| > 0
  {
    TableCell(RenderType(g, schema))
  }

  const RequiredMarker: seq<Phrasing> := [Strong([Text("REQUIRED")]), Text(". ")]

  /** `buildDescriptionCell`, src/util.ts:226-236. */
  function BuildDescriptionCell(description: Option<string>, required: bool): (c: TableCell)
    ensures required ==> c.children == RequiredMarker + ParseMarkdownInline(description.GetOr(""))
    ensures !required ==> c.children == ParseMarkdownInline(description.GetOr(""))
    ensures required ==> |c.children| >= 2 && c.children[..2] == RequiredMarker
    ensures !required && description.GetOr("") == "" ==> c.children == []
  {
    var children := if required then RequiredMarker else [];
    var parsed := ParseMarkdownInline(description.GetOr(""));
    TableCell(children + parsed)
  }

  /** `buildTableRow`, src/util.ts:238-247. */
  function BuildTableRow(g: Graph, schemaTitleRaw: string, field: FieldDef): (row: TableRow)
    requires RenderOrdered(g) && InfoIn(g, field.schema)
    ensures |row.cells| == 3
    ensures row.cells[0] == BuildFieldCell(schemaTitleRaw, field.name)
    ensures row.cells[1].children == RenderType(g, field.schema)
    ensures field.required ==> |row.cells[2].children| >= 2 && row.cells[2].children[..2] == RequiredMarker
    ensures !field.required ==> row.cells[2].children == ParseMarkdownInline(field.description.GetOr(""))
  {
    TableRow([
      BuildFieldCell(schemaTitleRaw, field.name),
      BuildTypeCell(g, field.schema),
      BuildDescriptionCell(field.description, field.required)])
  }

  const HeaderRow: TableRow :=
    TableRow([TableCell([Text("Field Name")]), TableCell([Text("Type")]), TableCell([Text("Description")])])

  /** `buildTable`, src/util.ts:249-267: the header row, then one row per field, in order. */
  function BuildTable(g: Graph, schemaTitleRaw: string, fields: seq<FieldDef>): (t: Table)
    requires RenderOrdered(g) && FieldsIn(g, fields)
    ensures t.align == [Left, Center, Left]
    ensures |t.rows| == |fields| + 1 && t.rows[0] == HeaderRow
    ensures forall k :: 0 <= k < |fields| ==> t.rows[k + 1] == BuildTableRow(g, schemaTitleRaw, fields[k])
  {
    var body := BodyRows(g, schemaTitleRaw, fields);
    var rows := [HeaderRow] + body;
    PrependShifts(HeaderRow, body);
    Table([Left, Center, Left], rows)
  }

  lemma PrependShifts<T>(h: T, body: seq<T>)
    ensures forall k :: 0 <= k < |body| ==> ([h] + body)[k + 1] == body[k]
  {
  }

  /** One row per field, in order. */
  function BodyRows(g: Graph, schemaTitleRaw: string, fields: seq<FieldDef>): (rows: seq<TableRow>)
    requires RenderOrdered(g) && FieldsIn(g, fields)
    ensures |rows| == |fields|
    ensures forall k :: 0 <= k < |fields| ==> rows[k] == BuildTableRow(g, schemaTitleRaw, fields[k])
    decreases |fields|
  {
    if fields == [] then []
    else
      assert FieldsIn(g, fields[1..]) by {
        forall k | 0 <= k < |fields[1..]| ensures InfoIn(g, fields[1..][k].schema) {
          assert fields[1..][k] == fields[k + 1];
        }
      }
      [BuildTableRow(g, schemaTitleRaw, fields[0])] + BodyRows(g, schemaTitleRaw, fields[1..])
  }

  const ExtensionNotice: string :=
    "This object MAY be extended with [Specification Extensions](#specification-extensions)."

  /** The nodes one section contributes inside `renderSections`, src/util.ts:296-318, given
      the section's field table (`buildTable` of its fields). */
  function SectionNodes(s: Section, table: Table): (nodes: seq<Block>)
    ensures |nodes| == 2 + (if Truthy(s.description) then 1 else 0) + (if s.hasSpecExtensions then 1 else 0)
    ensures nodes[0] == HeadingNode(s.headingDepth, s.title)
    ensures Truthy(s.description) ==> nodes[1] == Paragraph(ParseMarkdownInline(s.description.value))
    ensures nodes[if Truthy(s.description) then 2 else 1] == TableBlock(table)
    ensures s.hasSpecExtensions ==> nodes[|nodes| - 1] == Paragraph(ParseMarkdownInline(ExtensionNotice))
    ensures forall k :: 1 <= k < |nodes| ==> !nodes[k].Heading?
  {
    [HeadingNode(s.headingDepth, s.title)] +
    (if Truthy(s.description) then [Paragraph(ParseMarkdownInline(s.description.value))] else []) +
    [TableBlock(table)] +
    (if s.hasSpecExtensions then [Paragraph(ParseMarkdownInline(ExtensionNotice))] else [])
  }

  /** The document children of `renderSections`: each section's nodes, in section order. */
  function DocumentNodes(g: Graph, sections: seq<Section>): (nodes: seq<Block>)
    requires RenderOrdered(g) && SectionsIn(g, sections)
    ensures |nodes| >= 2 * |sections|
  {
    if |sections| == 0 then []
    else
      SectionsInTail(g, sections);
      SectionNodes(sections[0], BuildTable(g, sections[0].schemaTitleRaw, sections[0].fields)) +
      DocumentNodes(g, sections[1..])
  }

  /** The headings of a node list, in order. */
  function Headings(nodes: seq<Block>): seq<Block> {
    if |nodes| == 0 then []
    else (if nodes[0].Heading? then [nodes[0]] else []) + Headings(nodes[1..])
  }

  lemma {:induction false} HeadingsAppend(a: seq<Block>, b: seq<Block>)
    ensures Headings(a + b) == Headings(a) + Headings(b)
  {
    if |a| == 0 {
      assert a + b == b;
    } else {
      assert (a + b)[0] == a[0] && (a + b)[1..] == a[1..] + b;
      HeadingsAppend(a[1..], b);
      assert Headings(a + b) == (if a[0].Heading? then [a[0]] else []) + Headings(a[1..] + b);
    }
  }

  /** One heading per section, in section order, at the section's depth and with its
      display title. */
  function SectionHeadings(sections: seq<Section>): (hs: seq<Block>)
    ensures |hs| == |sections|
    ensures forall k :: 0 <= k < |sections| ==>
      hs[k] == HeadingNode(sections[k].headingDepth, sections[k].title)
  {
    if |sections| == 0 then []
    else [HeadingNode(sections[0].headingDepth, sections[0].title)] + SectionHeadings(sections[1..])
  }

  lemma SectionsInTail(g: Graph, sections: seq<Section>)
    requires |sections| > 0 && SectionsIn(g, sections)
    ensures FieldsIn(g, sections[0].fields) && SectionsIn(g, sections[1..])
  {
    forall k | 0 <= k < |sections| - 1 ensures FieldsIn(g, sections[1..][k].fields) {
      assert sections[1..][k] == sections[k + 1];
    }
  }

  /** The document's headings are exactly the sections' headings, in section order. */
  lemma {:induction false} HeadingsFollowSections(g: Graph, sections: seq<Section>)
    requires RenderOrdered(g) && SectionsIn(g, sections)
    ensures Headings(DocumentNodes(g, sections)) == SectionHeadings(sections)
  {
    if |sections| > 0 {
      SectionsInTail(g, sections);
      var first := SectionNodes(sections[0], BuildTable(g, sections[0].schemaTitleRaw, sections[0].fields));
      var rest := DocumentNodes(g, sections[1..]);
      assert DocumentNodes(g, sections) == first + rest;
      HeadingsAppend(first, rest);
      assert Headings(first) == [first[0]] by {
        HeadingsAppend([first[0]], first[1..]);
        assert [first[0]] + first[1..] == first;
        NoHeadings(first[1..]);
      }
      HeadingsFollowSections(g, sections[1..]);
    }
  }

  lemma {:induction false} NoHeadings(nodes: seq<Block>)
    requires forall k :: 0 <= k < |nodes| ==> !nodes[k].Heading?
    ensures Headings(nodes) == []
  {
    if |nodes| > 0 { NoHeadings(nodes[1..]); }
  }
}
