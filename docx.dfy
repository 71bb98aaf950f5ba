/**
 * A Word document as the extractor sees it once python-docx has parsed it:
 * its paragraphs in document order, its relationships in the order
 * `part.rels.values()` yields them, and its tables as rows of raw cell text.
 */
module Docx {
  import opened Text

  newtype byte = x: int | 0 <= x < 256

  /** The bytes of an embedded part (`rel.target_part.blob`). */
  type Blob = seq<byte>

  /** A paragraph: its style name (`para.style.name`) and its text (`para.text`). */
  datatype Paragraph = Paragraph(style: string, text: string)

  /** A relationship: its type URI (`rel.reltype`) and the blob of its target part. */
  datatype Relationship = Relationship(relType: string, blob: Blob)

  /** A table: one sequence of raw cell texts per row; rows may differ in length. */
  type Table = seq<seq<string>>

  datatype Document = Document(paragraphs: seq<Paragraph>, rels: seq<Relationship>, tables: seq<Table>)

  /** A heading marker: a style name starting, case-sensitively, with "Heading". */
  predicate IsHeading(p: Paragraph)
  {
    StartsWith(p.style, "Heading")
  }

  /** An image relationship: its type contains "image". */
  predicate IsImage(rel: Relationship)
  {
    Contains(rel.relType, "image")
  }
}
