/**
 * The tokens of the markdown library the parser consumes, reduced to the
 * variants the parser distinguishes; every other variant is one catch-all.
 */
module Markdown {
  import opened Wrappers

  /** An inline span: inline code, or anything else (text, emphasis, links, ...). */
  datatype Span = Code(text: string) | OtherSpan

  /** A block: a fenced code block with its optional language, a paragraph, or anything else. */
  datatype Block =
    | CodeBlock(lang: Option<string>, text: string)
    | Paragraph(spans: seq<Span>)
    | OtherBlock
}
