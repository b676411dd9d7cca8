/**
 * Cell contents (src/grammar.rs): the kinds of grammar, their constructors,
 * `as_grid`, and the CSS a grammar renders to.
 */
module Grammars {
  import opened Wrappers
  import opened Coordinates
  import opened CoordText
  import opened Styles

  /** What a lookup cell points at. */
  datatype Lookup =
    | Cell(target: Coordinate)
    | Range(parent: Coordinate, start: RowCol, end: RowCol)
    | Row(row: Coordinates.Row)
    | Col(col: Coordinates.Col)

  /** Interactive widgets; the slider's numbers are `f64` in the source. */
  datatype Interactive =
    | Button
    | Slider(value: real, min: real, max: real)
    | Toggle(on: bool)

  datatype Kind =
    | Text(text: string)
    | Input(value: string)
    | Grid(subs: seq<RowCol>)
    | Interactive(caption: string, widget: Interactive)
    | Lookup(raw: string, lookup: Option<Lookup>)
    | Defn(binding: string, defnCoord: Coordinate, rules: seq<(string, Coordinate)>)
    | Editor(content: string)

  /** The contents of one cell. */
  datatype Grammar = Grammar(name: string, style: Style, kind: Kind)

  /** A session's cells: every coordinate in use and its grammar. */
  type GrammarMap = map<Coordinate, Grammar>

  /** `Grammar::default`: an unnamed, empty input cell. */
  function DefaultGrammar(): (g: Grammar)
    ensures g.name == "" && g.kind == Input("") && g.style == DefaultStyle()
  {
    Grammar("", DefaultStyle(), Input(""))
  }

  function TextGrammar(name: string, value: string): (g: Grammar)
    ensures g.name == name && g.kind == Text(value) && g.style == DefaultStyle()
  {
    Grammar(name, DefaultStyle(), Text(value))
  }

  function InputGrammar(name: string, value: string): (g: Grammar)
    ensures g.name == name && g.kind == Input(value) && g.style == DefaultStyle()
  {
    Grammar(name, DefaultStyle(), Input(value))
  }

  function DefaultButton(): (g: Grammar)
    ensures g.name == "button" && g.kind == Interactive("", Button) && g.style == DefaultStyle()
  {
    Grammar("button", DefaultStyle(), Interactive("", Button))
  }

  function DefaultSlider(): (g: Grammar)
    ensures g.name == "slider" && g.kind == Interactive("", Slider(0.0, 0.0, 100.0)) && g.style == DefaultStyle()
  {
    Grammar("slider", DefaultStyle(), Interactive("", Slider(0.0, 0.0, 100.0)))
  }

  function DefaultToggle(): (g: Grammar)
    ensures g.name == "toggle" && g.kind == Interactive("", Toggle(false)) && g.style == DefaultStyle()
  {
    Grammar("toggle", DefaultStyle(), Interactive("", Toggle(false)))
  }

  // ---------------------------------------------------------------------------
  // Row-major order and `as_grid`.

  /** `a` comes strictly before `b` in row-major order. */
  predicate RowMajorLess(a: RowCol, b: RowCol) {
    a.0 < b.0 || (a.0 == b.0 && a.1 < b.1)
  }

  predicate RowMajorLeq(a: RowCol, b: RowCol) {
    a == b || RowMajorLess(a, b)
  }

  predicate StrictlyRowMajor(xs: seq<RowCol>) {
    forall i, j :: 0 <= i < j < |xs| ==> RowMajorLess(xs[i], xs[j])
  }

  predicate RowMajorSorted(xs: seq<RowCol>) {
    forall i, j :: 0 <= i < j < |xs| ==> RowMajorLeq(xs[i], xs[j])
  }

  /** Row `i` of a grid with `cols` columns, left to right. */
  function RowCells(i: Pos, cols: nat): seq<RowCol> {
    if cols == 0 then [] else RowCells(i, cols - 1) + [(i, cols)]
  }

  /** The first `rows` rows of a grid with `cols` columns, top to bottom. */
  function GridCells(rows: nat, cols: nat): seq<RowCol> {
    if rows == 0 then [] else GridCells(rows - 1, cols) + RowCells(rows, cols)
  }

  lemma {:induction false} RowCellsSpec(i: Pos, cols: nat)
    ensures |RowCells(i, cols)| == cols
    ensures forall k :: 0 <= k < cols ==> RowCells(i, cols)[k] == (i, k + 1)
  {
    if cols > 0 {
      RowCellsSpec(i, cols - 1);
    }
  }

  /**
   * `as_grid(rows, cols)` lists every pair (i, j) with 1 <= i <= rows and
   * 1 <= j <= cols, in strictly increasing row-major order, so each once.
   */
  lemma {:induction false} GridCellsSpec(rows: nat, cols: nat)
    ensures |GridCells(rows, cols)| == rows * cols
    ensures StrictlyRowMajor(GridCells(rows, cols))
    ensures forall p: RowCol :: p in GridCells(rows, cols) <==> p.0 <= rows && p.1 <= cols
  {
    if rows > 0 {
      GridCellsSpec(rows - 1, cols);
      RowCellsSpec(rows, cols);
      var a, b := GridCells(rows - 1, cols), RowCells(rows, cols);
      var g := a + b;
      assert |g| == rows * cols by {
        assert (rows - 1) * cols + cols == rows * cols;
      }
      forall i, j | 0 <= i < j < |g| ensures RowMajorLess(g[i], g[j]) {
        if j < |a| {
        } else if i < |a| {
          assert g[i] in a && g[i].0 <= rows - 1;
          assert g[j] == b[j - |a|];
        } else {
          assert g[i] == b[i - |a|] && g[j] == b[j - |a|];
        }
      }
      forall p: RowCol ensures p in g <==> p.0 <= rows && p.1 <= cols {
        if p.0 == rows && p.1 <= cols {
          assert b[p.1 - 1] == p;
        }
      }
    }
  }

  /** `Grammar::as_grid` as the source writes it: nested loops pushing each pair. */
  method AsGrid(rows: Pos, cols: Pos) returns (g: Grammar)
    ensures g == Grammar("", DefaultStyle(), Grid(GridCells(rows, cols)))
  {
    var grid: seq<RowCol> := [];
    var i := 1;
    while i <= rows
      invariant 1 <= i <= rows + 1
      invariant grid == GridCells(i - 1, cols)
    {
      grid := PushRow(grid, i, cols);
      i := i + 1;
    }
    return Grammar("", DefaultStyle(), Grid(grid));
  }

  /** The inner loop of `Grammar::as_grid`: push the pairs of row `i`. */
  method PushRow(grid: seq<RowCol>, i: Pos, cols: Pos) returns (grid': seq<RowCol>)
    ensures grid' == grid + RowCells(i, cols)
  {
    grid' := grid;
    var j := 1;
    while j <= cols
      invariant 1 <= j <= cols + 1
      invariant grid' == grid + RowCells(i, j - 1)
    {
      grid' := grid' + [(i, j)];
      j := j + 1;
    }
  }

  lemma AsGridOneByTwo()
    ensures GridCells(1, 2) == [(1, 1), (1, 2)]
  {
  }

  // ---------------------------------------------------------------------------
  // Sorting the sub-coordinates row-major (`sort_by` in the source).

  function Insert(x: RowCol, ys: seq<RowCol>): (r: seq<RowCol>)
    ensures multiset(r) == multiset(ys) + multiset{x}
  {
    if ys == [] then [x]
    else if RowMajorLeq(x, ys[0]) then [x] + ys
    else
      assert ys == [ys[0]] + ys[1..];
      [ys[0]] + Insert(x, ys[1..])
  }

  /** Inserting into a sorted list keeps it sorted; every element is `x` or came from `ys`. */
  lemma {:induction false} InsertSorted(x: RowCol, ys: seq<RowCol>)
    requires RowMajorSorted(ys)
    ensures RowMajorSorted(Insert(x, ys))
    ensures forall k :: 0 <= k < |Insert(x, ys)| ==> Insert(x, ys)[k] == x || Insert(x, ys)[k] in ys
  {
    var r := Insert(x, ys);
    if ys == [] {
      assert r == [x];
    } else if RowMajorLeq(x, ys[0]) {
      assert r == [x] + ys;
      forall k | 0 <= k < |ys| ensures RowMajorLeq(x, ys[k]) {
        assert RowMajorLeq(ys[0], ys[k]);
      }
      ConsSorted(x, ys);
      forall k | 0 <= k < |r| ensures r[k] == x || r[k] in ys {
        if k > 0 {
          assert r[k] == ys[k - 1];
        }
      }
    } else {
      var rest := Insert(x, ys[1..]);
      assert r == [ys[0]] + rest;
      InsertSorted(x, ys[1..]);
      InsertedAfterHead(x, ys, rest);
      ConsSorted(ys[0], rest);
      forall k | 0 <= k < |r| ensures r[k] == x || r[k] in ys {
        if k > 0 {
          assert r[k] == rest[k - 1];
          if rest[k - 1] != x {
            assert rest[k - 1] in ys[1..];
          }
        } else {
          assert r[0] == ys[0];
        }
      }
    }
  }

  lemma InsertedAfterHead(x: RowCol, ys: seq<RowCol>, rest: seq<RowCol>)
    requires RowMajorSorted(ys) && |ys| > 0 && RowMajorLess(ys[0], x)
    requires forall k :: 0 <= k < |rest| ==> rest[k] == x || rest[k] in ys[1..]
    ensures forall k :: 0 <= k < |rest| ==> RowMajorLeq(ys[0], rest[k])
  {
    forall k | 0 <= k < |rest| ensures RowMajorLeq(ys[0], rest[k]) {
      if rest[k] != x {
        var j :| 0 <= j < |ys[1..]| && ys[1..][j] == rest[k];
        assert ys[j + 1] == rest[k];
      }
    }
  }

  lemma ConsSorted(h: RowCol, rest: seq<RowCol>)
    requires RowMajorSorted(rest)
    requires forall k :: 0 <= k < |rest| ==> RowMajorLeq(h, rest[k])
    ensures RowMajorSorted([h] + rest)
  {
    var r := [h] + rest;
    forall i, j | 0 <= i < j < |r| ensures RowMajorLeq(r[i], r[j]) {
      if i == 0 {
        assert r[j] == rest[j - 1];
      } else {
        assert r[i] == rest[i - 1] && r[j] == rest[j - 1];
      }
    }
  }

  /** The sub-coordinates in row-major order (insertion sort). */
  function SortRowMajor(xs: seq<RowCol>): (ys: seq<RowCol>)
    ensures multiset(ys) == multiset(xs)
  {
    if xs == [] then []
    else
      assert xs == [xs[0]] + xs[1..];
      Insert(xs[0], SortRowMajor(xs[1..]))
  }

  /** `sort_by` yields a row-major sorted permutation of the sub-coordinates. */
  lemma {:induction false} SortRowMajorSorted(xs: seq<RowCol>)
    ensures RowMajorSorted(SortRowMajor(xs))
    ensures multiset(SortRowMajor(xs)) == multiset(xs)
  {
    if xs != [] {
      SortRowMajorSorted(xs[1..]);
      InsertSorted(xs[0], SortRowMajor(xs[1..]));
    }
  }

  /** Sorting keeps every column printable. */
  lemma SortKeepsColumns(xs: seq<RowCol>)
    requires ColumnsPrintable(xs)
    ensures ColumnsPrintable(SortRowMajor(xs))
  {
    var ys := SortRowMajor(xs);
    forall k | 0 <= k < |ys| ensures ValidColumn(ys[k].1) {
      assert ys[k] in multiset(xs);
    }
  }

  // ---------------------------------------------------------------------------
  // The CSS of a grammar.

  /** `String::pop`: drop the last character, if any. */
  function Pop(s: string): string {
    if s == [] then s else s[..|s| - 1]
  }

  function CellName(coord: Coordinate, x: RowCol): string
    requires Printable(coord) && ValidColumn(x.1)
  {
    assert ChildOf(coord, x)[1..] == coord[1..] + [x];
    "cell-" + ToString(ChildOf(coord, x))
  }

  /**
   * The grid-template text for the listed cells: names of consecutive cells
   * are separated by a space, and by `"` newline `"` where the row increases.
   */
  function AreaLines(coord: Coordinate, xs: seq<RowCol>): string
    requires Printable(coord) && ColumnsPrintable(xs) && |xs| > 0
  {
    var last := xs[|xs| - 1];
    if |xs| == 1 then CellName(coord, last)
    else
      var prev := xs[|xs| - 2];
      AreaLines(coord, xs[..|xs| - 1]) + (if last.0 > prev.0 then "\"\n\"" else " ") + CellName(coord, last)
  }

  /**
   * The quoted `grid-template-areas` value.  When the first cell listed is not
   * in row 1, the opening quote is replaced by a lone `"` line.
   */
  function GridTemplate(coord: Coordinate, xs: seq<RowCol>): string
    requires Printable(coord) && ColumnsPrintable(xs)
  {
    if xs == [] then "\""
    else TemplateOpening(xs) + AreaLines(coord, xs) + "\""
  }

  /** The opening of the template: a lone `"` line when the first row listed is not row 1. */
  function TemplateOpening(xs: seq<RowCol>): string
    requires |xs| > 0
  {
    if xs[0].0 > 1 then "\"\n\"" else "\""
  }

  lemma PopAppend(s: string, c: char)
    ensures Pop(s + [c]) == s
  {
  }

  lemma ConcatAssoc(o: string, l: string, sep: string, name: string)
    ensures o + l + sep + name + " " == o + (l + sep + name) + " "
  {
  }

  lemma AreaLinesFirst(coord: Coordinate, xs: seq<RowCol>)
    requires Printable(coord) && ColumnsPrintable(xs) && |xs| > 0
    ensures AreaLines(coord, xs[..1]) == CellName(coord, xs[0])
  {
  }

  lemma AreaLinesStep(coord: Coordinate, xs: seq<RowCol>, i: nat)
    requires Printable(coord) && ColumnsPrintable(xs) && 0 < i < |xs|
    ensures AreaLines(coord, xs[..i + 1])
      == AreaLines(coord, xs[..i]) + (if xs[i].0 > xs[i - 1].0 then "\"\n\"" else " ") + CellName(coord, xs[i])
  {
    assert xs[..i + 1][..i] == xs[..i];
  }

  /** One turn of the grid-template loop appends the next cell's name and separator. */
  lemma AreaNext(coord: Coordinate, xs: seq<RowCol>, i: nat, area: string, prevRow: int)
    requires Printable(coord) && ColumnsPrintable(xs) && i < |xs|
    requires i == 0 ==> area == "\"" && prevRow == 1
    requires i > 0 ==> prevRow == xs[i - 1].0 && area == TemplateOpening(xs) + AreaLines(coord, xs[..i]) + " "
    ensures (if xs[i].0 > prevRow then Pop(area) + "\"\n\"" else area) + CellName(coord, xs[i]) + " "
      == TemplateOpening(xs) + AreaLines(coord, xs[..i + 1]) + " "
  {
    var name := CellName(coord, xs[i]);
    var sep: string := if xs[i].0 > prevRow then "\"\n\"" else " ";
    if i == 0 {
      AreaLinesFirst(coord, xs);
      assert Pop(area) == [];
    } else {
      var prefix := TemplateOpening(xs) + AreaLines(coord, xs[..i]);
      AreaLinesStep(coord, xs, i);
      PopAppend(prefix, ' ');
      assert (if xs[i].0 > prevRow then Pop(area) + "\"\n\"" else area) == prefix + sep;
      ConcatAssoc(TemplateOpening(xs), AreaLines(coord, xs[..i]), sep, name);
    }
  }

  /** The grid-template loop of `Grammar::style`, over already sorted sub-coordinates. */
  method GridAreas(coord: Coordinate, xs: seq<RowCol>) returns (area: string)
    requires Printable(coord) && ColumnsPrintable(xs)
    ensures area == GridTemplate(coord, xs)
  {
    area := "\"";
    var prevRow := 1;
    var i := 0;
    while i < |xs|
      invariant 0 <= i <= |xs|
      invariant i == 0 ==> area == "\"" && prevRow == 1
      invariant i > 0 ==> prevRow == xs[i - 1].0
      invariant i > 0 ==> area == TemplateOpening(xs) + AreaLines(coord, xs[..i]) + " "
    {
      var x := xs[i];
      var name := CellName(coord, x);
      AreaNext(coord, xs, i, area, prevRow);
      if x.0 > prevRow {
        area := Pop(area) + "\"\n\"";
      }
      area := area + name + " ";
      prevRow := x.0;
      i := i + 1;
    }
    if i == 0 {
      assert Pop(area) == [];
    } else {
      PopAppend(TemplateOpening(xs) + AreaLines(coord, xs[..i]), ' ');
      assert xs[..i] == xs;
    }
    area := Pop(area) + "\"";
  }

  /** Everything `Grammar::style` needs to print: the coordinate and each child's column. */
  predicate StyleDefined(g: Grammar, coord: Coordinate) {
    Printable(coord) && (g.kind.Grid? ==> ColumnsPrintable(g.kind.subs))
  }

  /** `Grammar::style`: the CSS for the cell at `coord`. */
  function StyleOf(g: Grammar, coord: Coordinate): string
    requires StyleDefined(g, coord)
  {
    if g.kind.Grid? then
      SortKeepsColumns(g.kind.subs);
      GridCss(coord, GridTemplate(coord, SortRowMajor(g.kind.subs)))
    else if g.kind.Lookup? then LookupCss(g.style, coord)
    else CellCss(g.style, coord)
  }

  /** The CSS of a grid cell, around its `grid-template-areas` text. */
  function GridCss(coord: Coordinate, areas: string): string
    requires Printable(coord)
  {
    "display: grid;\ngrid-area: cell-" + ToString(coord)
      + ";\nheight: fit-content;\nwidth: fit-content !important;\ngrid-template-areas: \n"
      + areas + ";\n"
  }

  /** The CSS of a lookup cell. */
  function LookupCss(s: Style, coord: Coordinate): string
    requires Printable(coord)
  {
    StyleCss(s) + "display: inline-flex; grid-area: cell-" + ToString(coord) + "; background: white;\n"
  }

  /** The CSS of any other cell. */
  function CellCss(s: Style, coord: Coordinate): string
    requires Printable(coord)
  {
    StyleCss(s) + "grid-area: cell-" + ToString(coord) + ";\n"
  }

  /** `Grammar::style` as the source writes it: sort, then the grid-template loop. */
  method Style(g: Grammar, coord: Coordinate) returns (css: string)
    requires StyleDefined(g, coord)
    ensures css == StyleOf(g, coord)
  {
    if g.kind.Grid? {
      css := GridStyle(coord, g.kind.subs);
    } else if g.kind.Lookup? {
      css := LookupCss(g.style, coord);
    } else {
      css := CellCss(g.style, coord);
    }
  }

  /** The grid arm of `Grammar::style`: sort the children, then print the template. */
  method GridStyle(coord: Coordinate, subs: seq<RowCol>) returns (css: string)
    requires Printable(coord) && ColumnsPrintable(subs)
    ensures ColumnsPrintable(SortRowMajor(subs)) && css == GridCss(coord, GridTemplate(coord, SortRowMajor(subs)))
  {
    var sorted := SortRowMajor(subs);
    SortKeepsColumns(subs);
    var area := GridAreas(coord, sorted);
    css := GridCss(coord, area);
  }

  lemma ExampleCellNames()
    ensures Printable([(1, 1), (1, 1)])
    ensures CellName([(1, 1), (1, 1)], (1, 1)) == "cell-root-A1-A1"
    ensures CellName([(1, 1), (1, 1)], (1, 2)) == "cell-root-A1-B1"
  {
    var c: Coordinate := [(1, 1), (1, 1)];
    assert c[1..] == [(1, 1)];
    assert ChildOf(c, (1, 1)) == [(1, 1), (1, 1), (1, 1)];
    assert ChildOf(c, (1, 2)) == [(1, 1), (1, 1), (1, 2)];
    RootPathText((1, 1), (1, 1));
    RootPathText((1, 1), (1, 2));
    FirstRowText();
  }

  /** The text of a three-pair path under `root`. */
  lemma RootPathText(a: RowCol, b: RowCol)
    requires ValidColumn(a.1) && ValidColumn(b.1)
    ensures Printable([(1, 1), a, b])
    ensures ToString([(1, 1), a, b]) == "root" + ("-" + RowColToString(a) + "-" + RowColToString(b))
  {
    var c: Coordinate := [(1, 1), a, b];
    assert c[1..] == [a, b];
    TailTwo(a, b);
  }

  lemma TailTwo(a: RowCol, b: RowCol)
    requires ValidColumn(a.1) && ValidColumn(b.1)
    ensures ColumnsPrintable([a, b])
    ensures Tail([a, b]) == "-" + RowColToString(a) + "-" + RowColToString(b)
  {
    var t: Coordinate := [a, b];
    assert t[..1] == [a] && [a][..0] == [];
    assert Tail([a]) == "-" + RowColToString(a);
  }

  lemma FirstRowText()
    ensures RowColToString((1, 1)) == "A1" && RowColToString((1, 2)) == "B1"
  {
    assert NatToString(1) == "1";
    assert ColumnLetter(1) == 'A' && ColumnLetter(2) == 'B';
  }

  /** The template of a 1 x 2 grid at `root-A1` names both cells on one line. */
  lemma ExampleGridTemplate()
    ensures Printable([(1, 1), (1, 1)]) && ColumnsPrintable(GridCells(1, 2))
    ensures GridTemplate([(1, 1), (1, 1)], GridCells(1, 2)) == "\"" + ("cell-root-A1-A1" + " " + "cell-root-A1-B1") + "\""
  {
    var c: Coordinate := [(1, 1), (1, 1)];
    var xs: seq<RowCol> := [(1, 1), (1, 2)];
    assert GridCells(1, 2) == xs;
    assert TemplateOpening(xs) == "\"";
    ExampleAreaLines();
    ExampleCellNames();
  }

  lemma ExampleAreaLines()
    ensures Printable([(1, 1), (1, 1)]) && ColumnsPrintable([(1, 1), (1, 2)])
    ensures AreaLines([(1, 1), (1, 1)], [(1, 1), (1, 2)])
      == CellName([(1, 1), (1, 1)], (1, 1)) + " " + CellName([(1, 1), (1, 1)], (1, 2))
  {
    var xs: seq<RowCol> := [(1, 1), (1, 2)];
    assert xs[..1] == [(1, 1)];
    assert [(1, 1), (1, 1)][1..] == [(1, 1)];
  }

  /** A grid that is already in row-major order sorts to itself. */
  lemma {:induction false} SortSortedIdentity(xs: seq<RowCol>)
    requires StrictlyRowMajor(xs)
    ensures SortRowMajor(xs) == xs
  {
    if xs != [] {
      var t := xs[1..];
      assert StrictlyRowMajor(t) by {
        forall i, j | 0 <= i < j < |t| ensures RowMajorLess(t[i], t[j]) {
          assert t[i] == xs[i + 1] && t[j] == xs[j + 1];
        }
      }
      SortSortedIdentity(t);
      if t != [] {
        assert RowMajorLess(xs[0], t[0]) by { assert t[0] == xs[1]; }
      }
    }
  }
}
