/**
 * `get_style` (src/style.rs): the CSS of one cell as the view asks for it,
 * combining the grammar's own style with its spans and the sizes of its
 * row and column.
 */
module CellStyles {
  import opened Coordinates
  import opened CoordText
  import opened Styles
  import opened Grammars

  /**
   * The result of `get_style`.  `Css` is text the model computes exactly;
   * `Px` stands for text with two floating-point lengths in it: the text
   * `base`, then `width: <width>px;` and `height: <height>px;` lines, then
   * `tail`.
   */
  datatype CellCss =
    | Css(text: string)
    | Px(base: string, width: real, height: real, tail: string)

  /** The leading part every branch copies from `Grammar::style`. */
  function BaseOf(r: CellCss): string {
    match r
    case Css(text) => text
    case Px(base, _, _, _) => base
  }

  /** The span width `hi - lo` of a span pair, which must not underflow. */
  function SpanLength(span: (nat, nat)): nat
    requires span.0 <= span.1
  {
    span.1 - span.0
  }

  /** The placement line for one axis, present only when its span is non-zero. */
  function SpanCss(axis: string, span: (nat, nat)): (s: string)
    requires span.0 <= span.1
    ensures s == "" <==> SpanLength(span) == 0
  {
    if SpanLength(span) == 0 then ""
    else
      "\ngrid-" + axis + "-start: " + NatToString(span.0) + "; grid-" + axis + ": "
        + NatToString(span.0) + " / span " + NatToString(span.1) + ";"
  }

  /** `get_style` needs the grammar's style to be printable and, below the top level, ordered spans. */
  predicate GetStyleDefined(g: Grammar, coord: Coordinate) {
    StyleDefined(g, coord)
      && (|coord| != 1 ==> g.style.colSpan.0 <= g.style.colSpan.1 && g.style.rowSpan.0 <= g.style.rowSpan.1)
  }

  predicate Spanned(s: Style)
    requires s.colSpan.0 <= s.colSpan.1 && s.rowSpan.0 <= s.rowSpan.1
  {
    SpanLength(s.colSpan) != 0 || SpanLength(s.rowSpan) != 0
  }

  function GetStyle(g: Grammar, colWidths: map<Col, real>, rowHeights: map<Row, real>, coord: Coordinate): (r: CellCss)
    requires GetStyleDefined(g, coord)
    // Every branch starts with the grammar's own style.
    ensures StyleOf(g, coord) <= BaseOf(r)
    // A top-level grid is styled by its grammar alone.
    ensures |coord| == 1 ==> r == Css(StyleOf(g, coord))
    // Exact text: the top level, and unspanned grids below it.
    ensures r.Css? <==> |coord| == 1 || (!Spanned(g.style) && g.kind.Grid?)
    // A spanned cell's size grows by its spans, and its tail places it.
    ensures |coord| != 1 && Spanned(g.style) ==>
      r.Px? && r.width == g.style.width + SpanLength(g.style.colSpan) as real
      && r.height == g.style.height + SpanLength(g.style.rowSpan) as real
      && r.tail == SpanCss("column", g.style.colSpan) + " " + SpanCss("row", g.style.rowSpan)
    // Otherwise the size comes from the column and row tables, 90 x 30 when absent.
    ensures |coord| != 1 && !Spanned(g.style) && r.Px? ==>
      r.base == StyleOf(g, coord) && r.tail == "\n"
      && r.width == (if FullCol(coord) in colWidths then colWidths[FullCol(coord)] else 90.0)
      && r.height == (if FullRow(coord) in rowHeights then rowHeights[FullRow(coord)] else 30.0)
  {
    var base := StyleOf(g, coord);
    if |coord| == 1 then Css(base)
    else if Spanned(g.style) then
      Px(base, g.style.width + SpanLength(g.style.colSpan) as real, g.style.height + SpanLength(g.style.rowSpan) as real,
         SpanCss("column", g.style.colSpan) + " " + SpanCss("row", g.style.rowSpan))
    else if g.kind.Grid? then
      Css(base + "\nwidth: fit-content;\nheight: fit-content;\n")
    else
      var col := FullCol(coord);
      var row := FullRow(coord);
      Px(base, if col in colWidths then colWidths[col] else 90.0, if row in rowHeights then rowHeights[row] else 30.0, "\n")
  }

  /** Below the top level, an unspanned grid sizes itself to its content. */
  lemma GridFitsContent(g: Grammar, colWidths: map<Col, real>, rowHeights: map<Row, real>, coord: Coordinate)
    requires GetStyleDefined(g, coord) && |coord| != 1 && g.kind.Grid? && !Spanned(g.style)
    ensures GetStyle(g, colWidths, rowHeights, coord)
      == Css(StyleOf(g, coord) + "\nwidth: fit-content;\nheight: fit-content;\n")
  {
  }

  /** Only spans, not the column and row tables, decide a spanned cell's size. */
  lemma SpannedIgnoresTables(g: Grammar, cw1: map<Col, real>, rh1: map<Row, real>,
                             cw2: map<Col, real>, rh2: map<Row, real>, coord: Coordinate)
    requires GetStyleDefined(g, coord) && |coord| != 1 && Spanned(g.style)
    ensures GetStyle(g, cw1, rh1, coord) == GetStyle(g, cw2, rh2, coord)
  {
  }

  /** A column start is printed exactly when the column span is non-zero. */
  lemma ColumnStartPrinted(s: (nat, nat))
    requires s.0 <= s.1
    ensures SpanLength(s) != 0 <==> |SpanCss("column", s)| > 0 && SpanCss("column", s)[0] == '\n'
  {
  }
}
