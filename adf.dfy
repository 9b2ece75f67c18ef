/** The fragment of the Atlassian Document Format (ADF) that the converter
    builds: a `doc` node with a version and an ordered list of top-level
    blocks, whose inline content is `text` nodes, some with a `strong` mark. */
module Adf {
  /** The only mark the converter attaches to a text node. */
  datatype Mark = Strong

  /** `{"type": "text", "text": text}`, with `"marks": [{"type": "strong"}]`
      when `marks` is `[Strong]`; a plain node has no marks. */
  datatype TextNode = Text(text: string, marks: seq<Mark>)

  /** `heading` (with `attrs.level`), `paragraph` and the payload-free `rule`. */
  datatype Block =
    | Heading(level: nat, content: seq<TextNode>)
    | Paragraph(content: seq<TextNode>)
    | Rule

  /** `{"type": "doc", "version": version, "content": content}`. */
  datatype Doc = Doc(version: nat, content: seq<Block>)

  /** The heading level the converter always uses. */
  const HeadingLevel: nat := 3

  /** The document version the converter always writes. */
  const DocVersion: nat := 1

  function Plain(t: string): TextNode { Text(t, []) }

  function Bold(t: string): TextNode { Text(t, [Strong]) }

  predicate IsStrong(n: TextNode) { Strong in n.marks }
}
