/**
  The parsed page, as far as the scraper looks at it. The HTML parser, the
  table lookup by heading anchor and the link decorator are outside the model:
  a table is given as its rows, and each link already carries the `wikidata`
  attribute the decorator would have attached.
*/
module Dom {
  import opened Wrappers

  /** An `a` element: its text and its `wikidata` attribute, if any. */
  datatype Link = Link(text: string, wikidata: Option<string>)

  /** A `td` element: its text content and the links inside it, in document order. */
  datatype Cell = Cell(text: string, links: seq<Link>)

  /** A `tr` element: the text of its first `th`, if it has one, and its `td` cells. */
  datatype Row = Row(header: Option<string>, cells: seq<Cell>)
}
