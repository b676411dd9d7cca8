# A verified model of the integrated spreadsheet environment's core

The integrated spreadsheet environment is a spreadsheet whose cells hold
*grammars*. A grammar is a named, styled cell kind: text, input, an
interactive widget, a lookup, a definition, or a nested grid of further
cells. Every cell is addressed by a *coordinate*. A coordinate is the path of
(row, column) pairs from one of the two top-level grids, `root` (pair `(1,1)`)
and `meta` (pair `(1,2)`), down to the cell. It is printed as `root-A1-B2`.
All grammars of a session live in one map from coordinate to grammar.

This project models the following in Dafny and proves properties of them:

* **Coordinate algebra** (`Coordinates`, from `src/coordinate.rs`): child,
  parent, truncation, full row and column, the four neighbours, and
  `is_n_parent`.
* **Text form of coordinates** (`CoordText`, from `src/util.rs` and the
  `coord!`, `coord_col!` and `coord_row!` macros): the formatter and the
  parser. On single-letter columns the two agree, and the formatter is
  injective.
* **Styles** (`Styles`, `CellStyles`, from `src/style.rs`): the default
  style, its CSS text, and `get_style`.
* **Grammar constructors** (`Grammars`, from `src/grammar.rs`): `default`,
  `text`, `input`, the three widgets, `as_grid`, and the CSS a grammar
  renders with, including the grid-template text of a grid.
* **Building a map from a nested table** (`GrammarMaps`, from
  `src/grammar_map.rs`).
* **Moving a grammar subtree** (`GrammarMoves`, from `move_grammar` in
  `src/util.rs`). Every copy step also calls `resize`, which rewrites
  widths and heights from the floating-point row and column tables. The
  move is therefore specified up to each cell's `style.width` and
  `style.height` (`SameUpToSize`), and exactly in everything else.
* **The editor state** (`Editor`, from `src/model.rs`). The class
  `Editor.Model` holds the grammar map, the `meta` grammar, the active cell,
  the selection and the suggestion list. Its methods are the structural edit
  actions:
  * change an input and toggle a lookup;
  * set the active cell and select a range;
  * delete and merge a range;
  * add a nested grid and insert a row or a column;
  * move a grammar;
  * add, stage and bind definitions;
  * recreate the starting sheet;
  * refresh the suggestions from columns A and B of `meta`.

  Each method is specified by a pure function or predicate on the old state,
  and the properties are proved as lemmas about that function. In the
  source, every action of the update match is followed by that refresh
  (src/model.rs:1729-1762). The model keeps the two as separate methods, so
  an action's full effect is the action method followed by
  `RefreshSuggestions`.
* **Completions** (`Suggestions`, from `src/suggestion.rs`): the suggestions
  offered in a cell.
* **The meta representation** (`MetaTransform`, from `src/meta.rs`): how a
  cell is shown from its meta representation.
* **Session encoding** (`SessionCodec`, from `src/session.rs`): how a session
  is written out, as the serde data-model tree that the hand-written
  `Serialize` implementations produce.

Some of the source's behaviour is odd, and the model keeps it as written,
with a lemma for each case:

* **Column count in `build_grammar_map`:** the count is updated only when a
  column index exceeds it. A table of width `w` therefore gets the width of
  `2 * (w / 2)` columns.
* **Depth test in `get_suggestions` and the meta transform:** the test
  `is_n_parent(meta, coord) >= 3` can never hold, because `meta` is a single
  pair.
* **Session field count:** the session declares 3 fields and writes 4.
* **Style field count:** the style declares 6 fields and writes 9.
* **`Kind::Editor`:** it has no serialiser arm, so the model returns `None`
  for it.
* **Multi-letter columns:** the parser reads them as a sum of letters, while
  the formatter prints one character. Round trips therefore hold only for
  columns `A` to `Z`.

Integers are unbounded. Rows and columns are positive (`NonZeroU32`). Where
the source's `u32` arithmetic reaches a reachable panic in parsing, it is
modelled as a `None` result.

## Model

| member | source | states |
|---|---|---|
| Coordinates.ChildOf | src/coordinate.rs:25-32 | the child is one pair longer, has the parent as prefix and ends in the given pair |
| Coordinates.Parent | src/coordinate.rs:34-46 | no parent exactly for a one-pair coordinate; otherwise the parent's child at the last pair is the coordinate |
| Coordinates.Truncate | src/coordinate.rs:48-60 | `None` exactly when the coordinate has at most `n` pairs; otherwise its prefix of length `n` |
| Coordinates.FullRow | src/coordinate.rs:93-100 | the row of a nested cell is its parent together with its row index |
| Coordinates.FullCol | src/coordinate.rs:126-133 | the column of a nested cell is its parent together with its column index |
| Coordinates.FullRowEq | src/coordinate.rs:93-100 | two cells have the same full row exactly when they share a parent and a row index |
| Coordinates.NeighborAbove | src/coordinate.rs:163-179 | present exactly when the row index exceeds 1; the same coordinate with the row one less |
| Coordinates.NeighborBelow | src/coordinate.rs:181-194 | present for every non-empty coordinate; the row one more, all else equal |
| Coordinates.NeighborLeft | src/coordinate.rs:196-211 | present exactly when the column index exceeds 1; the column one less |
| Coordinates.NeighborRight | src/coordinate.rs:213-226 | present for every non-empty coordinate; the column one more |
| Coordinates.BelowThenAbove | src/coordinate.rs:163-194 | the cell above the cell below is the cell itself |
| Coordinates.RightThenLeft | src/coordinate.rs:196-226 | the cell left of the cell to the right is the cell itself |
| Coordinates.ParentOfChild | src/coordinate.rs:25-46 | the parent of a child of a non-empty coordinate is that coordinate |
| Coordinates.IsNParent | src/coordinate.rs:146-159 | `None` exactly when the first coordinate is longer; otherwise the length of the common leading run of pairs |
| Coordinates.CommonPrefixLengthUnique | src/coordinate.rs:146-159 | the common-prefix length `is_n_parent` reports is unique |
| Coordinates.SingleCommonPrefixAtMostOne | src/coordinate.rs:146-159 | a one-pair coordinate shares at most one pair with anything |
| CoordText.NatToString | src/util.rs:55-59 | decimal text: non-empty digits, one digit exactly below 10, a leading zero only for zero |
| CoordText.DecimalValueOfNatToString | src/util.rs:55-59 | the decimal text reads back as the number |
| CoordText.ColumnLetter | src/util.rs:55-59 | the column letter is the character with code column + 64 |
| CoordText.NonZeroTuple | src/util.rs:50-53 | the pair keeps both components when they are non-zero |
| CoordText.RowColToString | src/util.rs:55-59 | the column's character followed by the row's decimal digits |
| CoordText.Show | src/util.rs:61-81 | text exists exactly when the head pair is `root` or `meta`; it then starts with that word |
| CoordText.CoordShow | src/util.rs:61-81 | the loop over the pairs yields exactly `Show` |
| CoordText.RootInfix | src/coordinate.rs:66-74 | the printed form contains `root-` exactly when it is a nested cell under `root` |
| CoordText.ToStringInjective | src/coordinate.rs:66-74 | different printable coordinates print differently |
| CoordText.LettersSpanMaximal | src/coordinate.rs:280-286 | the maximal run of capital letters at the front |
| CoordText.DigitsSpanMaximal | src/coordinate.rs:288-290 | the maximal run of digits at the front |
| CoordText.LetterSumBounds | src/coordinate.rs:281-284 | the summed column is non-negative without underflow and at least the number of letters |
| CoordText.Fragment | src/coordinate.rs:275-295 | a parsed `-LETTERS DIGITS` fragment takes at least three characters |
| CoordText.ParseCoord | src/coordinate.rs:261-304 | a parsed coordinate starts with the pair named by `root` or `meta` |
| CoordText.SumLetters | src/coordinate.rs:281-284 | the loop sums exactly the letter run's column value |
| CoordText.ReadDigits | src/coordinate.rs:288-290 | the loop reads exactly the digit run's decimal value |
| CoordText.ParseCoordinate | src/coordinate.rs:261-304 | the imperative parser yields exactly `ParseCoord` |
| CoordText.ParseU32 | src/coordinate.rs:318-326 | an accepted row fits in `u32` |
| CoordText.ParseShowRoundTrip | src/coordinate.rs:261-304 | parsing the printed form of a coordinate with single-letter columns gives it back |
| CoordText.MacroRoundTrip | src/coordinate.rs:306-326 | `coord_col!` and `coord_row!` read back a printed parent, column letter and row |
| CoordText.ColumnPastZ | src/util.rs:55-59 | column 27 prints as `[`, and that text does not parse |
| CoordText.LettersAreSummed | src/coordinate.rs:281-284 | `root-AB1` parses to column 3 |
| CoordText.SummedPrintsBack | src/coordinate.rs:66-74 | column 3 prints as `C`, not as `AB` |
| CoordText.ExampleToString | src/coordinate.rs:339-369 | `root-A1-B2-B3` prints and parses as the unit test expects |
| CoordText.ExampleRowToString | src/coordinate.rs:101-108 | the row text of `root-A1-B2-B3` is `root-A1-B2-3`; at the top it is the bare row |
| Styles.DefaultStyleCss | src/style.rs:40-66 | the default style prints `inherit`, weight 400 and colour black |
| Styles.StyleCssCollapseWord | src/style.rs:54-66 | the word after `border-collapse:` is `collapse` exactly when the flag is set |
| CellStyles.SpanCss | src/style.rs:93-104 | the span text is empty exactly when the span has length zero |
| CellStyles.GetStyle | src/style.rs:69-130 | grammar CSS for top cells; spanned cells get the style's width and height plus the span; unspanned grids fit their content; other cells take the column width and row height, default 90 and 30 |
| CellStyles.GridFitsContent | src/style.rs:112-117 | an unspanned nested grid renders `fit-content` |
| CellStyles.SpannedIgnoresTables | src/style.rs:87-110 | a spanned cell's CSS does not depend on the column and row tables |
| CellStyles.ColumnStartPrinted | src/style.rs:93-98 | the column span line is printed exactly when the span is non-empty |
| Grammars.DefaultGrammar | src/grammar.rs:90-98 | an unnamed empty input with the default style |
| Grammars.TextGrammar | src/grammar.rs:145-154 | a text grammar with the given name and value |
| Grammars.InputGrammar | src/grammar.rs:156-165 | an input grammar with the given name and value |
| Grammars.DefaultButton | src/grammar.rs:167-173 | the grammar named `button` holding a button |
| Grammars.DefaultSlider | src/grammar.rs:175-181 | the grammar named `slider` holding a slider from 0 to 100 at 0 |
| Grammars.DefaultToggle | src/grammar.rs:183-189 | the grammar named `toggle` holding an unset toggle |
| Grammars.GridCellsSpec | src/grammar.rs:191-204 | the grid list has rows × cols pairs in strict row-major order, exactly those inside the bounds |
| Grammars.AsGrid | src/grammar.rs:191-204 | the nested loops build the unnamed default-styled grid of `GridCells` |
| Grammars.PushRow | src/grammar.rs:193-198 | the inner loop appends one row's pairs |
| Grammars.SortRowMajorSorted | src/grammar.rs:107-119 | the sort yields a row-major sorted permutation of the list |
| Grammars.SortSortedIdentity | src/grammar.rs:107-119 | sorting a list already in row-major order leaves it unchanged |
| Grammars.SortKeepsColumns | src/grammar.rs:107-119 | sorting keeps every column printable |
| Grammars.GridAreas | src/grammar.rs:104-130 | the loop builds the quoted grid-template text, one line per row |
| Grammars.AreaLinesStep | src/grammar.rs:120-128 | a new row closes the previous line; otherwise the name is appended to the line |
| Grammars.ExampleGridTemplate | src/grammar.rs:104-130 | a one-row, two-column grid gets one quoted line with both cell names |
| Grammars.Style | src/grammar.rs:101-143 | the CSS of a grammar is the grid template for grids, the lookup CSS for lookups, the style text otherwise |
| GrammarMaps.BuildGrammarMap | src/grammar_map.rs:26-68 | the recursive build yields exactly `Build` |
| GrammarMaps.BuildFrame | src/grammar_map.rs:26-68 | building only adds keys: the result is the old map overridden by the built entries |
| GrammarMaps.BuildKeys | src/grammar_map.rs:26-68 | every built key lies under the root coordinate |
| GrammarMaps.BuildRoot | src/grammar_map.rs:32-34 | the root holds the leaf grammar, or the generated grid grammar |
| GrammarMaps.BuildChild | src/grammar_map.rs:39-52 | the entry at row i, column j is built at the child (i+1, j+1) |
| GrammarMaps.BuildOutside | src/grammar_map.rs:26-68 | keys outside the root's subtree are untouched |
| GrammarMaps.SubCoordsSpec | src/grammar_map.rs:39-52 | the grid lists each (row, column) of the table once, in row-major order |
| GrammarMaps.ColumnCountStepFromZero | src/grammar_map.rs:41-44 | the column count of one row of length `len` is `2 * (len / 2)` |
| GrammarMaps.ColumnCountRectangular | src/grammar_map.rs:39-52 | a rectangular table of width `w` counts `2 * (w / 2)` columns |
| GrammarMaps.SubRowsRectangular | src/grammar_map.rs:39-52 | a rectangular table lists exactly `GridCells` |
| GrammarMaps.GridWidthRectangular | src/grammar_map.rs:57-62 | the grid's width is 90 × `2 * (w / 2)` and its height 30 × rows |
| GrammarMaps.ExampleNestedGrid | src/grammar_map.rs:26-68 | a grid nested in a table is built below its own cell |
| GrammarMoves.SameUpToSizeSpec | src/util.rs:133-187 | two grammars agree up to size exactly when name, kind and every style field but width and height agree, the fields `resize` never writes |
| GrammarMoves.MoveMap | src/util.rs:27-48 | the result is the source subtree copied to the destination over the old map, each cell up to width and height; the destination may be the source itself |
| GrammarMoves.MovedKeepsOthers | src/util.rs:27-48 | outside the destination subtree no key is added or removed and each grammar changes at most in width and height |
| GrammarMoves.MovedKeepsSource | src/util.rs:27-48 | nothing is removed, and the source subtree keeps its keys and, up to width and height, its grammars |
| GrammarMoves.MovedSourceCell | src/util.rs:27-48 | the destination holds the source's grammar and the source keeps it, both up to width and height |
| GrammarMoves.CopyReaches | src/util.rs:27-48 | every cell reachable below the source through grid lists is copied to the same path below the destination, equal up to width and height |
| GrammarMoves.MovedLeaf | src/util.rs:27-48 | a non-grid grammar moves as one entry: writing it at the destination meets the move specification |
| GrammarMoves.MovedOntoItself | src/util.rs:27-48 | moving a tree onto itself keeps every key, and every grammar up to width and height |
| GrammarMoves.MovedAbsent | src/util.rs:27-48 | moving an absent source changes nothing |
| Editor.QueryParent | src/model.rs:261-274 | exactly the present keys whose parent is the given coordinate |
| Editor.QueryCol | src/model.rs:276-295 | exactly the present keys with the column's parent and column index |
| Editor.QueryRow | src/model.rs:297-314 | exactly the present keys with the row's parent and row index |
| Editor.WithInput | src/model.rs:507-522 | inputs and lookups take the new value; other kinds are untouched |
| Editor.WithInputIdempotent | src/model.rs:507-522 | writing the same value twice is writing it once |
| Editor.Toggled | src/model.rs:1540-1575 | an input becomes an empty lookup, a lookup an empty input; other kinds stay |
| Editor.ToggledTwice | src/model.rs:1540-1575 | toggling twice restores the kind with its value cleared |
| Editor.WidenBy | src/model.rs:648-681 | the rectangle grows just enough to hold the cell's span |
| Editor.WidenPass | src/model.rs:648-681 | one pass over the map widens to contain the span of every covered cell and reports whether it moved |
| Editor.GrowSelection | src/model.rs:648-681 | the repeated passes reach the least rectangle closed under the spans it covers |
| Editor.SelectionUnique | src/model.rs:648-681 | that closed rectangle is unique |
| Editor.AttainedStaysInside | src/model.rs:648-681 | widening never leaves a closed rectangle that encloses the start |
| Editor.WidenShrinks | src/model.rs:648-681 | each widening strictly shrinks the span values still outside, so the loop ends |
| Editor.InitialRect | src/model.rs:633-644 | the first rectangle is spanned by the two cells at their common depth |
| Editor.WalkToCommonDepth | src/model.rs:613-630 | both ends are cut to the depth of the shorter parent path |
| Editor.SelectedOrdered | src/model.rs:683-686 | the stored selection shares one parent and runs top-left to bottom-right |
| Editor.RangeDeleted | src/model.rs:691-730 | deleting keeps the set of keys |
| Editor.RangeDeletedEmpties | src/model.rs:691-730 | every cell keeps its name and style and is unchanged or an empty input |
| Editor.RangeDeleteIdempotent | src/model.rs:691-730 | deleting the same range twice is deleting it once |
| Editor.RangeDeleteMap | src/model.rs:691-730 | the loop over the map yields exactly `RangeDeleted` |
| Editor.MergedAt | src/model.rs:751-781 | a merged cell becomes an empty input spanning the range, visible only at the corner |
| Editor.MergeMap | src/model.rs:732-796 | the loop over the map yields exactly `Merged` |
| Editor.MergedKeys | src/model.rs:784-793 | merging adds no key when the corner is present |
| Editor.MergedEmptyKey | src/model.rs:748-793 | on a map without the empty key, a merge leaves none exactly when the bottom-right cell is a visible target |
| Editor.MergedCells | src/model.rs:751-781 | cells in the range are spanned empty inputs, others untouched |
| Editor.MergedEdge | src/model.rs:756-771 | after merging the corner is the only visible cell on each edge |
| Editor.MergedCornerSums | src/model.rs:756-793 | the corner's width and height are the sums along the visible edges |
| Editor.MergeIdempotent | src/model.rs:732-796 | merging the same range twice is merging it once |
| Editor.WithDefaultsSpec | src/model.rs:1058-1063 | the new children are present as default grammars, everything else is kept |
| Editor.SpannedLike | src/model.rs:1088-1091 | the grid takes the active cell's spans when it has any |
| Editor.NestedGridComplete | src/model.rs:1037-1094 | the target holds a rows × cols grid and every child is a default grammar |
| Editor.NestedGridFrame | src/model.rs:1058-1094 | cells other than the target, its parent and its children are untouched |
| Editor.NestedGridMap | src/model.rs:1037-1094 | the loops yield exactly `NestedGrid` |
| Editor.ExtremeSpec | src/model.rs:1123-1130 | the walk stops at the last present cell of the line, with no present cell after it |
| Editor.FindExtreme | src/model.rs:1123-1130 | the loop finds exactly `Extreme` |
| Editor.InsertLine | src/model.rs:1121-1162 | the parent grid gains exactly the new line's pairs as default cells |
| Editor.ExtremeOfFullGrid | src/model.rs:1123-1130 | in a full grid the walk ends on the last row or column |
| Editor.NewPairsOfFullGrid | src/model.rs:1132-1135 | in a full grid the new pairs are exactly the next row or column |
| Editor.InsertIntoFullGrid | src/model.rs:1121-1162 | inserting into a full r × c grid yields a full (r+1) × c or r × (c+1) grid |
| Editor.MaxRowSpec | src/model.rs:1585-1594 | the largest row index among the column's cells |
| Editor.MaxRowUnique | src/model.rs:1585-1594 | that maximum is unique |
| Editor.MaxQueryRow | src/model.rs:1585-1594 | the loop finds exactly `MaxRow` |
| Editor.NextSlot | src/model.rs:1584-1596 | the new definition goes one row below the lowest cell of the column |
| Editor.FreshDefnSlot | src/model.rs:1595-1600 | that slot is not yet in the map |
| Editor.DefnSlotKeys | src/model.rs:1585-1596 | the slot depends only on the map's keys |
| Editor.PushSlot | src/model.rs:1597-1599 | `meta`'s grid list gains the slot |
| Editor.Renamed | src/model.rs:1610-1612 | renaming one cell changes only its name |
| Editor.Define | src/model.rs:1577-1643 | the cell is moved to the new slot of `meta`, renamed there, and the source optionally cleared |
| Editor.DefinedCells | src/model.rs:1602-1612 | the definition holds the renamed grammar up to width and height; a cleared source is exactly a default cell, a kept one equal up to width and height |
| Editor.DefinitionAddedCells | src/model.rs:1577-1643 | after a definition, the fresh slot holds the renamed cell up to width and height, no key was lost, and the source is cleared or kept |
| Editor.BindingNameInjective | src/model.rs:1660-1665 | different binding names give different full names |
| Editor.BindingNameParts | src/model.rs:1660-1665 | the full name is `parent::binding` |
| Editor.Bind | src/model.rs:1649-1701 | binding fails exactly without the definition's parent; otherwise rename both cells and copy the binding to `meta` |
| Editor.BoundCells | src/model.rs:1668-1696 | the binding and its copy in `meta` both hold the binding under its full name, up to width and height |
| Editor.RenamedTwice | src/model.rs:1668-1673 | renaming two cells to one name keeps the keys and renames the second |
| Editor.BuiltGrid | src/model.rs:1425-1499 | a rectangular table builds a grid of `GridCells` |
| Editor.BuiltCell | src/model.rs:1425-1499 | a leaf of the table is built at its child coordinate |
| Editor.SheetKeeps | src/model.rs:1425-1499 | later builds keep the earlier ones outside their own subtree |
| Editor.SheetShape | src/model.rs:1425-1499 | the sheet has a 3 × 3 `root`, a 5 × 1 `meta` and a three-cell form |
| Editor.RecreatedCells | src/model.rs:1425-1499 | the recreated sheet's cells, with `meta`'s list not naming the form at A6 |
| Editor.TablesShaped | src/model.rs:1425-1499 | the starting tables have the sizes and cells the sheet assumes |
| Editor.ListSuggestions | src/model.rs:1730-1744 | one suggestion per present cell of a column, each with its name |
| Editor.SuggestionsCover | src/model.rs:1730-1763 | column A of `meta` appears as completions and column B as bindings, each naming its cell |
| Editor.KeyCombinationSplits | src/model.rs:1888-1899 | the modifiers and key can be read back from the combination string |
| Editor.StripWritten | src/model.rs:1888-1899 | one modifier prefix is removed exactly when it was written |
| Editor.Model.constructor | src/model.rs:34-62 | the editor state over a given map and `meta` grammar, with no active cell, no selection and no suggestions |
| Editor.Model.ChangeInput | src/model.rs:493-526 | the cell takes the new value by `WithInput`; nothing else changes |
| Editor.Model.ToggleLookup | src/model.rs:1540-1575 | the cell is `Toggled`; nothing else changes |
| Editor.Model.SetActiveCell | src/model.rs:527-532 | the active cell is set; nothing else changes |
| Editor.Model.SelectStart | src/model.rs:607-611 | the selection starts at the cell and its end is cleared |
| Editor.Model.SelectEnd | src/model.rs:612-689 | the selection becomes the closed rectangle of `SelectedAs` |
| Editor.Model.RangeDelete | src/model.rs:691-730 | the map becomes `RangeDeleted` of the selection |
| Editor.Model.MergeCells | src/model.rs:732-796 | with a selection the map becomes `Merged`; without one nothing changes |
| Editor.Model.AddNestedGrid | src/model.rs:1024-1104 | with an active cell the map becomes `NestedGrid` and the first child is active |
| Editor.Model.InsertRow | src/model.rs:1166-1210 | the active cell's grid gains a row of default cells below the last row |
| Editor.Model.InsertCol | src/model.rs:1120-1165 | the active cell's grid gains a column of default cells right of the last column |
| Editor.Model.MoveGrammar | src/util.rs:27-48 | the map becomes the moved map, up to widths and heights |
| Editor.Model.AddDefinition | src/model.rs:1577-1614 | the map and `meta` become `DefinitionAdded` in column A or B |
| Editor.Model.StageDefinition | src/model.rs:1616-1643 | a definition in column B that keeps its source |
| Editor.Model.BindDefinition | src/model.rs:1649-1701 | the map and `meta` become `Bound`, or stay unchanged without a parent |
| Editor.Model.Recreate | src/model.rs:1425-1499 | the map becomes the built starting sheet |
| Editor.Model.RefreshSuggestions | src/model.rs:1730-1763 | the suggestions become those of columns A and B of `meta` |
| Suggestions.PushCells | src/suggestion.rs:69-76 | the loop lists every present cell of the column other than the cell, once each |
| Suggestions.GetSuggestions | src/suggestion.rs:24-81 | nothing for absent and `defn_subrule_name` cells; `meta-A4` then the left column for definitions; column A of `meta` otherwise |
| Suggestions.NoSuggestionsFor | src/suggestion.rs:30-42 | absent cells and `defn_subrule_name` cells get no suggestions |
| Suggestions.DepthTestFails | src/suggestion.rs:45-47 | `is_n_parent(meta, ...)` never reaches 3 |
| Suggestions.DefinitionCellsLeft | src/suggestion.rs:56-64 | definition suggestions are exactly the present cells one column to the left |
| Suggestions.ListingCells | src/suggestion.rs:69-76 | other cells get exactly the present cells of column A of `meta`, except themselves |
| Suggestions.VariantListedTwice | src/suggestion.rs:51-64 | a definition cell in column B of `meta` is offered `meta-A4` twice |
| MetaTransform.TransformFromMeta | src/meta.rs:19-69 | the cell's own kind and exactly its `get_suggestions` list |
| MetaTransform.SubruleNamesSpec | src/meta.rs:47-64 | the guarded branch lists exactly the named column-1 cells of the definition grid |
| MetaTransform.DefinitionTransform | src/meta.rs:43-65 | the guarded branch gives an empty input and appends those cells |
| SessionCodec.EncodeCoordinate | src/session.rs:169-176 | a coordinate is written as its text, when it has one |
| SessionCodec.DecodeCoordinate | src/session.rs:46-59 | a coordinate is read by parsing a string |
| SessionCodec.EncodeCoordinateInjective | src/session.rs:169-176 | different coordinates are written differently |
| SessionCodec.CoordinateRoundTrip | src/session.rs:46-59 | reading back a written coordinate with single-letter columns gives it back |
| SessionCodec.WideColumnNotReloaded | src/session.rs:46-59 | a written column past Z does not read back |
| SessionCodec.StyleFieldsInOrder | src/session.rs:63-80 | the style writes 9 distinct fields after declaring 6 |
| SessionCodec.EncodeStyleInjective | src/session.rs:63-80 | the written style determines the style |
| SessionCodec.InteractiveTagged | src/session.rs:97-121 | the written widget carries its widget's name |
| SessionCodec.EncodeInteractiveInjective | src/session.rs:97-121 | the written widget determines the widget |
| SessionCodec.EncodeLookup | src/grammar.rs:69-79 | a lookup is written as its enum variant when its coordinate prints |
| SessionCodec.EncodeLookupInjective | src/grammar.rs:69-79 | the written lookup determines the lookup |
| SessionCodec.EncodeRulesInjective | src/session.rs:157-163 | the written rules determine the rules |
| SessionCodec.EncodeKind | src/session.rs:124-166 | a kind is written exactly when it is savable, as a `kind` value |
| SessionCodec.KindTagged | src/session.rs:129-164 | the written kind carries its variant's name |
| SessionCodec.EditorNotSaved | src/grammar.rs:64 | an editor cell has no written form |
| SessionCodec.EncodeKindInjective | src/session.rs:124-166 | the written kind determines the kind |
| SessionCodec.EncodeGrammar | src/session.rs:83-94 | a grammar is written exactly when its kind is savable |
| SessionCodec.EncodeGrammarInjective | src/session.rs:83-94 | the written grammar determines the grammar |
| SessionCodec.EncodeGrammars | src/session.rs:27-39 | the grammar map is written exactly when every key prints and every kind is savable |
| SessionCodec.GrammarsEntries | src/session.rs:27-39 | each entry is keyed by a coordinate's text and holds that cell's written grammar |
| SessionCodec.GrammarsCount | src/session.rs:27-39 | the written map has one entry per cell |
| SessionCodec.GrammarsKeysReload | src/session.rs:46-59 | with single-letter columns each written key reads back as a cell holding that entry |
| SessionCodec.GrammarsInjective | src/session.rs:27-39 | the written map determines the grammar map |
| SessionCodec.EncodeSession | src/session.rs:27-39 | a session is written exactly when it is savable |
| SessionCodec.SessionDeclaresTooFew | src/session.rs:27-39 | the session writes one field more than it declares, the grammar map last |
| SessionCodec.EncodeSessionInjective | src/session.rs:27-39 | the written session determines the session |

## Left out

- The view (`src/view.rs`), the CodeMirror bridge and every JavaScript and DOM call. This includes focusing cells, context menus, the cursor and the shift-key state.
- File, CSV and driver loading, and reading and saving session files. These are I/O. The resulting `AddNestedGrid` calls are modelled.
- `DeleteRow`, `DeleteCol`, `DoCompletion`, `Lookup`, `NextSuggestion`, zooming and resizing. These actions are not part of the modelled core.
- The second `MergeCells` arm of the update match. It is unreachable behind the first.
- The column-width and row-height tables, which `AddNestedGrid` fills in. This is floating-point layout.
- Editor.Model.AddNestedGrid: the widths and heights that the call to `resize` (src/util.rs:133-187) then writes into the new grid, its neighbours and its ancestors are not modelled. This is floating-point layout.
- Editor.Model.constructor: starts from a given map with no active cell and no suggestions. The fixed starting sheet of `create` (src/model.rs:321-479) and its initial suggestions (src/model.rs:455-478) are not modelled. `Recreate` and `RefreshSuggestions` are modelled.
- Editor.MergedCornerSums / Editor.Merged: the corner's width and height are exact `real` sums over the visible edge cells (`SumExtent`, `Corner`). The source adds `f64` values in `HashMap` iteration order (src/model.rs:756-766), so its sums are rounded and may depend on that order. Neither `f64` rounding nor the summation order is modelled.
- The exact text of floating-point numbers in CSS. Widths and heights are `real`, and the model does not pin down how they print.
- Deserialisation of whole sessions. The derived `Deserialize` implementations and `serde_json` are not part of this model. Only the written tree and its injectivity are modelled, plus reading coordinates back.
- Reading back a written `Lookup` or `Defn` kind. These are written as struct variants, and the derived reader of the tuple variants is not part of this model.
- `u32` overflow of `neighbor_below`, `neighbor_right`, the next free row in `meta`, and the new line's `c.row().get() + 1` in `InsertRow` and `c.col().get() + 1` in `InsertCol` (src/model.rs:1180, 1135). Integers are unbounded there.
- The order of `HashMap` iteration. Loops pick keys in an unspecified order, and query results are sets.
- The grammar file `coordinate.pest` is not part of this model. A coordinate text is taken to be `root` or `meta` followed by any number of `-LETTERS DIGITS` fragments that cover the whole string.
- GrammarMoves.MoveMap: the widths and heights that each step's call to `resize` (src/util.rs:36, 133-187) writes into the copied cell, its row and column neighbours and its ancestors' neighbours are not modelled, nor the row-height and column-width tables it and `resize_diff` (src/util.rs:189-203) update. This is floating-point layout. The result is fixed only up to each cell's `style.width` and `style.height`; keys and all other fields are exact.
- GrammarMoves.MoveMap: requires a present grid source to be the destination itself or unrelated to it; a non-grid source may go anywhere, since it is written once (`MovedLeaf`). A destination strictly inside a grid source is not covered. When the path from the source to the destination follows the grid lists, each copy lists the next step again and `move_grammar` copies without end. On other paths the copy ends, but the model does not describe that result. A destination that is a proper ancestor of the source is not covered either. There each recursive call reads the map as it then stands (src/util.rs:28), after earlier copies have overwritten source cells, so the result is not a copy of the original tree.
- GrammarMoves.MoveMap: a one-pair source (`root` or `meta`) makes `source.full_row()` panic on its `expect` (src/util.rs:34, src/coordinate.rs:93-99). An empty source panics at the same call, when `row()` meets `[]` (src/coordinate.rs:76-82). An empty destination panics inside `resize`, at its own `full_row()` (src/util.rs:140). The model copies in all three cases.
- GrammarMoves.MovedKeepsOthers: grammars outside the destination tree agree only up to width and height, because `resize` rewrites sizes of neighbours and ancestors.
- GrammarMoves.MovedKeepsSource: the source tree agrees only up to width and height, for the same reason.
- GrammarMoves.MovedSourceCell: the source and the destination hold the source's grammar only up to width and height, for the same reason.
- GrammarMoves.CopyReaches: each copied cell equals its source cell only up to width and height, for the same reason.
- GrammarMoves.MovedLeaf: the leaf's copy is one valid result of the move; the widths and heights `resize` would write are not pinned down.
- Editor.Model.MoveGrammar: the same omissions and requirement as `GrammarMoves.MoveMap`.
- Editor.Define: the copy goes through `GrammarMoves.MoveMap`, so the definition's cell and the cells around it are fixed only up to width and height. The source must be unrelated to the fresh slot in `meta`.
- Editor.DefinedCells: the definition cell and a kept source equal the source's grammar only up to width and height. A cleared source is exact, because the clear (src/model.rs:1602-1606) comes after the copy.
- Editor.DefinitionAddedCells: the same as `Editor.DefinedCells`.
- Editor.Bind: the copy into `meta` goes through `GrammarMoves.MoveMap`, so cells are fixed only up to width and height. The binding cell must be unrelated to the fresh slot.
- Editor.BoundCells: the binding cell and its copy hold the renamed binding only up to width and height.
- Editor.Model.AddDefinition: the result is `DefinitionAdded`, which is fixed only up to width and height, as for `Editor.Define`. It requires no empty key, because `query_col` calls `full_col` on every key that is not one pair long (src/model.rs:276-295) and that panics on `[]` (src/coordinate.rs:126-132).
- Editor.Model.StageDefinition: the same as `Editor.Model.AddDefinition`.
- Editor.Model.BindDefinition: the same as `Editor.Model.AddDefinition`. It also requires that the definition's coordinate is not one pair long, because `parent().expect` panics on it (src/model.rs:1653-1657).
- Editor.Model.SelectEnd: requires that the `parent()` walks of src/model.rs:615-628 reach a common parent. Without that, the source loops or panics on `unwrap`.
- Editor.Model.RangeDelete: requires both selection ends. The source unwraps them (src/model.rs:692-693). It also requires ends of at least one pair and no empty key, because `row()` panics on `[]` (src/coordinate.rs:76-82).
- Editor.Model.MergeCells: requires every key to be printable, because `to_string().unwrap()` panics otherwise (src/coordinate.rs:66-74). It also requires selection ends of at least one pair.
- Editor.Model.AddNestedGrid: requires the active cell to be present, because the source unwraps it (src/model.rs:1035). It also requires at least one row and one column, because `NonZeroU32::new(0).unwrap()` panics (src/model.rs:1037). It also requires a non-empty target coordinate. On `[]`, `resize(self, [], …)` calls `full_row()`, and `row()` then panics on `[]` (src/util.rs:133-140, src/coordinate.rs:76-82). An unspanned active cell panics earlier, in `full_row()` on the one-pair child (src/model.rs:1066-1075).
- Editor.Model.InsertRow: requires an active cell of at least two pairs and no empty key. `parent().unwrap()` panics on a one-pair cell, and `query_row` panics on an empty key.
- Editor.Model.InsertCol: the same as `Editor.Model.InsertRow`, with `query_col`.
- Editor.Model.RefreshSuggestions: requires no empty key, because `query_col` panics on it (src/model.rs:276-295). A merge without a visible bottom-right cell writes the empty key (src/model.rs:748, 790-792; `Editor.MergedEmptyKey`), after which the source's refresh panics. The model does not compose the action with the refresh, so that panic appears as this requirement.
- Editor.QueryCol: requires no empty key, because `full_col` panics on `[]`.
- Editor.QueryRow: requires no empty key, because `full_row` panics on `[]`.
- MetaTransform.TransformFromMeta: requires that the coordinate does not have exactly three pairs. For such a coordinate, `truncate(3).unwrap()` panics.
- Suggestions.GetSuggestions: requires `meta-A4` to be present for a definition cell. The source unwraps it (src/suggestion.rs:51-52). A definition cell must also have at least two pairs and a column above 1, because `neighbor_left().unwrap()` panics otherwise (src/suggestion.rs:55). The map must have no empty key, because `query_col` panics on it.
- SessionCodec.EncodeKind: returns `None` for `Kind::Editor`. The serialiser has no arm for it.
