/**
  The element kinds of the Markdown document tree.

  Each tag of the inline-kind enumeration becomes a constructor of `Inline`:
  the two text leaves carry their text, the containers carry their children.
  Blocks other than tables are not part of this model, so the block-kind
  enumeration is kept only as the tag a table block reports.
 */
module Elements {

  /** One inline element of the tree. */
  datatype Inline =
    | TextRun(text: string)
    | Bold(inlines: seq<Inline>)
    | Italic(inlines: seq<Inline>)
    | MarkdownLink(inlines: seq<Inline>)
    | RawHyperlink(text: string)
    | RawSubreddit(text: string)
    | Strikethrough(inlines: seq<Inline>)
    | Superscript(inlines: seq<Inline>)
    | Code(text: string)

  /** The kinds of block element. */
  datatype MarkdownBlockType =
    | Root
    | Paragraph
    | Quote
    | CodeBlock
    | Header
    | List
    | ListItemBuilder
    | HorizontalRule
    | Table
    | LinkReference
}
