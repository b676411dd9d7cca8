/**
 * `build_grammar_map` (src/grammar_map.rs): writing a nested table of
 * grammars into the coordinate map, each cell below its grid.
 */
module GrammarMaps {
  import opened Coordinates
  import opened Styles
  import opened Grammars

  /** A grammar, or a table of rows of entries (rows may differ in length). */
  datatype MapEntry =
    | G(grammar: Grammar)
    | Grid(table: seq<EntryRow>)

  /** One row of a grid entry (a `Vec<Box<MapEntry>>`). */
  datatype EntryRow = EntryRow(entries: seq<MapEntry>)

  /** The sub-coordinates a grid entry records: every (row, col) it has, row by row. */
  function SubCoords(t: seq<EntryRow>): seq<RowCol> {
    SubRows(t, |t|)
  }

  function SubRows(t: seq<EntryRow>, n: nat): seq<RowCol>
    requires n <= |t|
  {
    if n == 0 then [] else SubRows(t, n - 1) + RowCells(n, |t[n - 1].entries|)
  }

  /**
   * `num_cols` after a row of `len` entries, starting from `nc`: the loop
   * raises it to `col_i + 1` only when `col_i > num_cols`.
   */
  function ColumnCountStep(nc: nat, len: nat): nat {
    if len == 0 then nc
    else
      var prev := ColumnCountStep(nc, len - 1);
      if len - 1 > prev then len else prev
  }

  function ColumnCountRows(t: seq<EntryRow>, n: nat): nat
    requires n <= |t|
  {
    if n == 0 then 0 else ColumnCountStep(ColumnCountRows(t, n - 1), |t[n - 1].entries|)
  }

  /** The final `num_cols` of a grid entry. */
  function ColumnCount(t: seq<EntryRow>): nat {
    ColumnCountRows(t, |t|)
  }

  /** The grammar a grid entry leaves at its own coordinate. */
  function GridGrammar(t: seq<EntryRow>): Grammar {
    Grammar("", DefaultStyle().(width := 90.0 * ColumnCount(t) as real, height := 30.0 * |t| as real),
            Kind.Grid(SubCoords(t)))
  }

  // ---------------------------------------------------------------------------
  // Specification: the map after building, as a fold in the source's order.

  /** `build_grammar_map(m, root, e)`. */
  function Build(m: GrammarMap, root: Coordinate, e: MapEntry): GrammarMap
    decreases e, 2, 0
  {
    match e
    case G(g) => m[root := g]
    case Grid(t) => BuildRows(m, root, t, |t|)[root := GridGrammar(t)]
  }

  /** The first `n` rows of a table, each row left to right. */
  function BuildRows(m: GrammarMap, root: Coordinate, t: seq<EntryRow>, n: nat): GrammarMap
    requires n <= |t|
    decreases t, 1, n
  {
    if n == 0 then m
    else BuildCols(BuildRows(m, root, t, n - 1), root, n, t[n - 1], |t[n - 1].entries|)
  }

  /** The first `k` entries of row `i` (1-based). */
  function BuildCols(m: GrammarMap, root: Coordinate, i: Pos, row: EntryRow, k: nat): GrammarMap
    requires k <= |row.entries|
    decreases row, 0, k
  {
    if k == 0 then m
    else Build(BuildCols(m, root, i, row, k - 1), ChildOf(root, (i, k)), row.entries[k - 1])
  }

  // ---------------------------------------------------------------------------
  // The source's procedure: recursion plus the two enumerate loops.

  /** `build_grammar_map`, returning the updated map. */
  method BuildGrammarMap(m: GrammarMap, root: Coordinate, e: MapEntry) returns (r: GrammarMap)
    ensures r == Build(m, root, e)
    decreases e
  {
    match e {
      case G(g) =>
        r := m[root := g];
      case Grid(t) =>
        var subCoords: seq<RowCol> := [];
        var numRows := 0;
        var numCols := 0;
        r := m;
        for i := 0 to |t|
          invariant r == BuildRows(m, root, t, i)
          invariant subCoords == SubRows(t, i)
          invariant numRows == i && numCols == ColumnCountRows(t, i)
        {
          numRows := i + 1;
          var row := t[i];
          for j := 0 to |row.entries|
            invariant r == BuildCols(BuildRows(m, root, t, i), root, i + 1, row, j)
            invariant subCoords == SubRows(t, i) + RowCells(i + 1, j)
            invariant numCols == ColumnCountStep(ColumnCountRows(t, i), j)
          {
            if j > numCols {
              numCols := j + 1;
            }
            r := BuildGrammarMap(r, ChildOf(root, (i + 1, j + 1)), row.entries[j]);
            subCoords := subCoords + [(i + 1, j + 1)];
          }
        }
        var style := DefaultStyle().(width := 90.0 * numCols as real, height := 30.0 * numRows as real);
        r := r[root := Grammar("", style, Kind.Grid(subCoords))];
    }
  }

  // ---------------------------------------------------------------------------
  // What building writes.

  /** Building on top of `m` is `m` overridden by what building alone writes. */
  lemma {:induction false} BuildFrame(m: GrammarMap, root: Coordinate, e: MapEntry)
    ensures Build(m, root, e) == m + Build(map[], root, e)
    decreases e, 2, 0
  {
    match e
    case G(g) =>
    case Grid(t) =>
      RowsFrame(m, root, t, |t|);
  }

  lemma {:induction false} RowsFrame(m: GrammarMap, root: Coordinate, t: seq<EntryRow>, n: nat)
    requires n <= |t|
    ensures BuildRows(m, root, t, n) == m + BuildRows(map[], root, t, n)
    decreases t, 1, n
  {
    if n > 0 {
      var a, a0 := BuildRows(m, root, t, n - 1), BuildRows(map[], root, t, n - 1);
      var len := |t[n - 1].entries|;
      RowsFrame(m, root, t, n - 1);
      ColsFrame(a, root, n, t[n - 1], len);
      ColsFrame(a0, root, n, t[n - 1], len);
      var c := BuildCols(map[], root, n, t[n - 1], len);
      UnionAssoc(m, a0, c);
    }
  }

  lemma UnionAssoc(a: GrammarMap, b: GrammarMap, c: GrammarMap)
    ensures (a + b) + c == a + (b + c)
  {
  }

  lemma {:induction false} ColsFrame(m: GrammarMap, root: Coordinate, i: Pos, row: EntryRow, k: nat)
    requires k <= |row.entries|
    ensures BuildCols(m, root, i, row, k) == m + BuildCols(map[], root, i, row, k)
    decreases row, 0, k
  {
    if k > 0 {
      var a, a0 := BuildCols(m, root, i, row, k - 1), BuildCols(map[], root, i, row, k - 1);
      var c := ChildOf(root, (i, k));
      ColsFrame(m, root, i, row, k - 1);
      BuildFrame(a, c, row.entries[k - 1]);
      BuildFrame(a0, c, row.entries[k - 1]);
      var f := Build(map[], c, row.entries[k - 1]);
      UnionAssoc(m, a0, f);
    }
  }

  /** Building writes only `root` and coordinates below it. */
  lemma {:induction false} BuildKeys(root: Coordinate, e: MapEntry)
    ensures forall k :: k in Build(map[], root, e) ==> IsPrefix(root, k)
    decreases e, 2, 0
  {
    match e
    case G(g) =>
    case Grid(t) =>
      RowsKeys(root, t, |t|);
  }

  lemma {:induction false} RowsKeys(root: Coordinate, t: seq<EntryRow>, n: nat)
    requires n <= |t|
    ensures forall k: Coordinate :: k in BuildRows(map[], root, t, n) ==>
      |k| > |root| && k[..|root|] == root && k[|root|].0 <= n
    decreases t, 1, n
  {
    if n > 0 {
      var a0 := BuildRows(map[], root, t, n - 1);
      RowsKeys(root, t, n - 1);
      ColsFrame(a0, root, n, t[n - 1], |t[n - 1].entries|);
      ColsKeys(root, n, t[n - 1], |t[n - 1].entries|);
    }
  }

  lemma {:induction false} ColsKeys(root: Coordinate, i: Pos, row: EntryRow, kk: nat)
    requires kk <= |row.entries|
    ensures forall k: Coordinate :: k in BuildCols(map[], root, i, row, kk) ==>
      |k| > |root| && k[..|root|] == root && k[|root|].0 == i && k[|root|].1 <= kk
    decreases row, 0, kk
  {
    if kk > 0 {
      var a0 := BuildCols(map[], root, i, row, kk - 1);
      var c := ChildOf(root, (i, kk));
      ColsKeys(root, i, row, kk - 1);
      BuildFrame(a0, c, row.entries[kk - 1]);
      BuildKeys(c, row.entries[kk - 1]);
      forall k | k in Build(map[], c, row.entries[kk - 1])
        ensures |k| > |root| && k[..|root|] == root && k[|root|] == (i, kk)
      {
        assert k[..|c|] == c;
        assert k[..|root|] == c[..|root|];
        assert k[|root|] == c[|root|];
      }
    }
  }

  /** The prefix condition, read off at the pair just below `root`. */
  lemma ChildPrefix(root: Coordinate, rc: RowCol, k: Coordinate)
    requires IsPrefix(ChildOf(root, rc), k)
    ensures |k| > |root| && k[..|root|] == root && k[|root|] == rc
  {
    var c := ChildOf(root, rc);
    assert k[..|root|] == c[..|root|];
    assert k[|root|] == c[|root|];
  }

  lemma {:induction false} ColsAt(root: Coordinate, i: Pos, row: EntryRow, kk: nat, j: nat, k: Coordinate)
    requires kk <= |row.entries| && j < |row.entries| && IsPrefix(ChildOf(root, (i, j + 1)), k)
    ensures k in BuildCols(map[], root, i, row, kk)
      <==> j < kk && k in Build(map[], ChildOf(root, (i, j + 1)), row.entries[j])
    ensures k in BuildCols(map[], root, i, row, kk) ==>
      BuildCols(map[], root, i, row, kk)[k] == Build(map[], ChildOf(root, (i, j + 1)), row.entries[j])[k]
    decreases kk
  {
    if kk > 0 {
      var a0 := BuildCols(map[], root, i, row, kk - 1);
      var c := ChildOf(root, (i, kk));
      ColsAt(root, i, row, kk - 1, j, k);
      BuildFrame(a0, c, row.entries[kk - 1]);
      if j != kk - 1 {
        ChildPrefix(root, (i, j + 1), k);
        BuildKeys(c, row.entries[kk - 1]);
        if k in Build(map[], c, row.entries[kk - 1]) {
          ChildPrefix(root, (i, kk), k);
        }
      }
    }
  }

  lemma {:induction false} RowsAt(root: Coordinate, t: seq<EntryRow>, n: nat, i: nat, j: nat, k: Coordinate)
    requires n <= |t| && i < |t| && j < |t[i].entries| && IsPrefix(ChildOf(root, (i + 1, j + 1)), k)
    ensures k in BuildRows(map[], root, t, n)
      <==> i < n && k in Build(map[], ChildOf(root, (i + 1, j + 1)), t[i].entries[j])
    ensures k in BuildRows(map[], root, t, n) ==>
      BuildRows(map[], root, t, n)[k] == Build(map[], ChildOf(root, (i + 1, j + 1)), t[i].entries[j])[k]
    decreases n
  {
    if n > 0 {
      var a0 := BuildRows(map[], root, t, n - 1);
      var len := |t[n - 1].entries|;
      RowsAt(root, t, n - 1, i, j, k);
      ColsFrame(a0, root, n, t[n - 1], len);
      ChildPrefix(root, (i + 1, j + 1), k);
      if i == n - 1 {
        ColsAt(root, n, t[n - 1], len, j, k);
      } else {
        ColsKeys(root, n, t[n - 1], len);
      }
    }
  }

  /**
   * The entry at 0-based (i, j) of a grid is built at `child_of(root, (i+1, j+1))`:
   * below that coordinate the result is what building the entry alone there gives.
   */
  lemma BuildChild(m: GrammarMap, root: Coordinate, t: seq<EntryRow>, i: nat, j: nat, k: Coordinate)
    requires i < |t| && j < |t[i].entries| && IsPrefix(ChildOf(root, (i + 1, j + 1)), k)
    ensures k in Build(m, root, MapEntry.Grid(t)) <==> k in Build(m, ChildOf(root, (i + 1, j + 1)), t[i].entries[j])
    ensures k in Build(m, root, MapEntry.Grid(t)) ==>
      Build(m, root, MapEntry.Grid(t))[k] == Build(m, ChildOf(root, (i + 1, j + 1)), t[i].entries[j])[k]
  {
    var c := ChildOf(root, (i + 1, j + 1));
    RowsFrame(m, root, t, |t|);
    BuildFrame(m, c, t[i].entries[j]);
    RowsAt(root, t, |t|, i, j, k);
  }

  /** The coordinate built at is left holding the entry's own grammar, or the grid's. */
  lemma BuildRoot(m: GrammarMap, root: Coordinate, e: MapEntry)
    ensures root in Build(m, root, e)
    ensures Build(m, root, e)[root] == (if e.G? then e.grammar else GridGrammar(e.table))
  {
  }

  /** Every key outside `root`'s subtree keeps its value, and no key is removed. */
  lemma BuildOutside(m: GrammarMap, root: Coordinate, e: MapEntry)
    ensures m.Keys <= Build(m, root, e).Keys
    ensures forall k :: !IsPrefix(root, k) ==>
      (k in Build(m, root, e) <==> k in m) && (k in m ==> Build(m, root, e)[k] == m[k])
  {
    BuildFrame(m, root, e);
    BuildKeys(root, e);
  }

  // ---------------------------------------------------------------------------
  // The grid grammar recorded at `root`.

  /**
   * The sub-coordinates are exactly the (row, col) pairs the table has, each
   * once, in strictly increasing row-major order.
   */
  lemma {:induction false} SubRowsSpec(t: seq<EntryRow>, n: nat)
    requires n <= |t|
    ensures StrictlyRowMajor(SubRows(t, n))
    ensures forall p: RowCol :: p in SubRows(t, n) <==> p.0 <= n && p.1 <= |t[p.0 - 1].entries|
  {
    if n > 0 {
      SubRowsSpec(t, n - 1);
      RowCellsSpec(n, |t[n - 1].entries|);
      var a, b := SubRows(t, n - 1), RowCells(n, |t[n - 1].entries|);
      var g := a + b;
      forall i, j | 0 <= i < j < |g| ensures RowMajorLess(g[i], g[j]) {
        if j < |a| {
        } else if i < |a| {
          assert g[i] in a && g[i].0 <= n - 1;
          assert g[j] == b[j - |a|];
        } else {
          assert g[i] == b[i - |a|] && g[j] == b[j - |a|];
        }
      }
      forall p: RowCol ensures p in g <==> p.0 <= n && p.1 <= |t[p.0 - 1].entries| {
        if p.0 == n && p.1 <= |t[n - 1].entries| {
          assert b[p.1 - 1] == p;
        }
      }
    }
  }

  lemma SubCoordsSpec(t: seq<EntryRow>)
    ensures StrictlyRowMajor(SubCoords(t))
    ensures forall p: RowCol :: p in SubCoords(t) <==> p.0 <= |t| && p.1 <= |t[p.0 - 1].entries|
  {
    SubRowsSpec(t, |t|);
  }

  /** Once `num_cols` is at least the last index of a row, the row leaves it alone. */
  lemma {:induction false} ColumnCountStepStable(nc: nat, len: nat)
    requires len <= nc + 1
    ensures ColumnCountStep(nc, len) == nc
  {
    if len > 0 {
      ColumnCountStepStable(nc, len - 1);
    }
  }

  /**
   * From zero, a row of `len` entries leaves `num_cols` at the largest even
   * number not above `len`: `col_i > num_cols` skips every other column.
   */
  lemma {:induction false} ColumnCountStepFromZero(len: nat)
    ensures ColumnCountStep(0, len) == 2 * (len / 2)
  {
    if len > 0 {
      ColumnCountStepFromZero(len - 1);
    }
  }

  predicate Rectangular(t: seq<EntryRow>, w: nat) {
    forall r :: 0 <= r < |t| ==> |t[r].entries| == w
  }

  lemma {:induction false} ColumnCountRectangular(t: seq<EntryRow>, n: nat, w: nat)
    requires 0 < n <= |t| && Rectangular(t, w)
    ensures ColumnCountRows(t, n) == 2 * (w / 2)
  {
    if n == 1 {
      ColumnCountStepFromZero(w);
    } else {
      ColumnCountRectangular(t, n - 1, w);
      ColumnCountStepStable(2 * (w / 2), w);
    }
  }

  /** A rectangular table records the same list as `as_grid` of its size. */
  lemma {:induction false} SubRowsRectangular(t: seq<EntryRow>, n: nat, w: nat)
    requires n <= |t| && Rectangular(t, w)
    ensures SubRows(t, n) == GridCells(n, w)
  {
    if n > 0 {
      SubRowsRectangular(t, n - 1, w);
    }
  }

  /**
   * For a rectangular grid of `w` columns the recorded width is `90 * 2 * (w / 2)`:
   * a one-column grid gets width 0 and a three-column grid 180.
   */
  lemma GridWidthRectangular(t: seq<EntryRow>, w: nat)
    requires |t| > 0 && Rectangular(t, w)
    ensures GridGrammar(t).style.width == 90.0 * (2 * (w / 2)) as real
    ensures GridGrammar(t).style.height == 30.0 * |t| as real
  {
    ColumnCountRectangular(t, |t|, w);
  }

  // ---------------------------------------------------------------------------
  // The nested table of the module's test: a 3 x 3 grid whose `C3` is a 2 x 2 grid.

  function ExampleInner(): seq<EntryRow> {
    [EntryRow([G(TextGrammar("", "C3-A1")), G(TextGrammar("", "C3-B1"))]),
     EntryRow([G(TextGrammar("", "C3-A2")), G(TextGrammar("", "C3-B2"))])]
  }

  function ExampleTable(): seq<EntryRow> {
    [EntryRow([G(TextGrammar("", "A1")), G(TextGrammar("", "B1")), G(TextGrammar("", "C1"))]),
     EntryRow([G(TextGrammar("", "A2")), G(TextGrammar("", "B2")), G(TextGrammar("", "C2"))]),
     EntryRow([G(TextGrammar("", "A3")), G(TextGrammar("", "B3")), MapEntry.Grid(ExampleInner())])]
  }

  /** `root-C3` holds the inner grid, listing its four cells row by row. */
  lemma ExampleNestedGrid()
    ensures [(1, 1), (3, 3)] in Build(map[], Root, MapEntry.Grid(ExampleTable()))
    ensures Build(map[], Root, MapEntry.Grid(ExampleTable()))[[(1, 1), (3, 3)]].kind
      == Kind.Grid([(1, 1), (1, 2), (2, 1), (2, 2)])
  {
    var c: Coordinate := [(1, 1), (3, 3)];
    var t := ExampleTable();
    assert ChildOf(Root, (3, 3)) == c;
    assert t[2].entries[2] == MapEntry.Grid(ExampleInner());
    BuildChild(map[], Root, t, 2, 2, c);
    BuildRoot(map[], c, MapEntry.Grid(ExampleInner()));
    assert SubCoords(ExampleInner()) == [(1, 1), (1, 2), (2, 1), (2, 2)];
  }
}
