/** The slice of the Markdown syntax tree (mdast) the compiler builds. */
module Mdast {

  /** Inline content. `Markdown(source)` stands for the phrasing nodes the external Markdown
      parser returns for a non-empty source text. */
  datatype Phrasing =
    | Text(value: string)
    | InlineCode(value: string)
    | Html(value: string)
    | Strong(children: seq<Phrasing>)
    | Link(url: string, children: seq<Phrasing>)
    | Markdown(source: string)

  datatype TableCell = TableCell(children: seq<Phrasing>)
  datatype TableRow = TableRow(cells: seq<TableCell>)
  datatype Align = Left | Center | Right
  datatype Table = Table(align: seq<Align>, rows: seq<TableRow>)

  /** mdast heading depths. */
  type HeadingDepth = d: nat | 1 <= d <= 6 witness 1

  datatype Block =
    | Heading(depth: HeadingDepth, children: seq<Phrasing>)
    | Paragraph(children: seq<Phrasing>)
    | TableBlock(table: Table)

  /** `parseMarkdownInline`, src/util.ts:41-55: an empty string yields no nodes; anything else
      goes to the parser, whose result is not modelled. */
  function ParseMarkdownInline(md: string): (r: seq<Phrasing>)
    ensures md == "" <==> r == []
    ensures forall k :: 0 <= k < |r| ==> r[k].Markdown?
  {
    if md == "" then [] else [Markdown(md)]
  }

  /** `heading`, src/util.ts:89-96. */
  function HeadingNode(depth: HeadingDepth, value: string): (b: Block)
    ensures b.Heading? && b.depth == depth && b.children == [Text(value)]
  {
    Heading(depth, [Text(value)])
  }
}
