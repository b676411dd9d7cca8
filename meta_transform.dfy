/**
 * `transform_from_meta_representation` (src/meta.rs): the kind a cell is
 * shown with and the suggestions it offers.  The branch that would turn a
 * definition rule back into an input is guarded by a depth test that never
 * holds, so every call returns the cell's own kind and its suggestions.
 */
module MetaTransform {
  import opened Wrappers
  import opened Coordinates
  import opened Grammars
  import opened Editor
  import opened Suggestions

  /**
   * What the function needs not to panic: the cell is present (`unwrap` on
   * the lookup), `get_suggestions` is defined for it, and it does not have
   * exactly three pairs (`truncate(3).unwrap()` on a three-pair coordinate).
   */
  predicate TransformDefined(g: GrammarMap, coord: Coordinate) {
    coord in g && |coord| != 3 && SuggestDefined(g, coord)
  }

  /**
   * `transform_from_meta_representation(m, coord)`: always the cell's own
   * kind together with exactly what `get_suggestions` lists for it.
   */
  method TransformFromMeta(g: GrammarMap, coord: Coordinate) returns (kind: Kind, s: seq<(Coordinate, Grammar)>)
    requires TransformDefined(g, coord)
    ensures kind == g[coord].kind
    ensures BranchOf(g[coord]) == Definition ==>
      |s| == 1 + |SuggestedCells(g, coord)| && s[0] == (DefnVariantCoord, g[DefnVariantCoord])
      && ListsCells(g, s[1..], SuggestedCells(g, coord))
    ensures BranchOf(g[coord]) != Definition ==>
      |s| == |SuggestedCells(g, coord)| && ListsCells(g, s, SuggestedCells(g, coord))
  {
    var grammar := g[coord];
    var suggestions := GetSuggestions(g, coord);
    kind, s := grammar.kind, suggestions;
    if |coord| < 3 {
      return;
    }
    var truncated := Truncate(coord, 3).value;
    var depth := IsNParent(Meta, coord);
    var truncatedCol := ColIndex(truncated);
    if depth.GetOr(0) >= 3 && truncatedCol == 2 {
      // `meta` has one pair, so `is_n_parent` yields at most 1 (DepthTestFails).
      assert false;
    }
  }

  /**
   * The suggestions the guarded branch would add: for each pair of the
   * definition grid's list in column 1, the cell below it when it is
   * present and named `defn_subrule_name`, in list order.
   */
  function SubruleNames(g: GrammarMap, root: Coordinate, subs: seq<RowCol>): seq<(Coordinate, Grammar)> {
    if subs == [] then []
    else
      var c := ChildOf(root, subs[|subs| - 1]);
      SubruleNames(g, root, subs[..|subs| - 1])
        + (if subs[|subs| - 1].1 == 1 && c in g && g[c].name == DefnSubruleName then [(c, g[c])] else [])
  }

  /** A pair of the list whose cell the guarded branch would suggest. */
  predicate NamedInFirstColumn(g: GrammarMap, root: Coordinate, x: RowCol) {
    x.1 == 1 && ChildOf(root, x) in g && g[ChildOf(root, x)].name == DefnSubruleName
  }

  /** `e` is the cell of a listed pair `x` of column 1, with its grammar. */
  predicate SuggestedFrom(g: GrammarMap, root: Coordinate, subs: seq<RowCol>, e: (Coordinate, Grammar)) {
    exists x :: x in subs && NamedInFirstColumn(g, root, x) && e == (ChildOf(root, x), g[ChildOf(root, x)])
  }

  /**
   * Every cell `SubruleNames` lists is a present column-1 child of the grid
   * named `defn_subrule_name`, with its grammar, and every such child the
   * grid lists is among them.
   */
  lemma {:induction false} SubruleNamesSpec(g: GrammarMap, root: Coordinate, subs: seq<RowCol>)
    ensures forall i :: 0 <= i < |SubruleNames(g, root, subs)| ==>
      SuggestedFrom(g, root, subs, SubruleNames(g, root, subs)[i])
    ensures forall x :: x in subs && NamedInFirstColumn(g, root, x) ==>
      (ChildOf(root, x), g[ChildOf(root, x)]) in SubruleNames(g, root, subs)
  {
    if subs != [] {
      var init, x := subs[..|subs| - 1], subs[|subs| - 1];
      SubruleNamesSpec(g, root, init);
      assert subs == init + [x];
      var a := SubruleNames(g, root, init);
      var r := SubruleNames(g, root, subs);
      var c := ChildOf(root, x);
      assert subs[..|subs| - 1] == init;
      assert r == a + (if NamedInFirstColumn(g, root, x) then [(c, g[c])] else []);
      forall i | 0 <= i < |r|
        ensures SuggestedFrom(g, root, subs, r[i])
      {
        if i < |a| {
          assert r[i] == a[i] && SuggestedFrom(g, root, init, a[i]);
          var y :| y in init && NamedInFirstColumn(g, root, y) && a[i] == (ChildOf(root, y), g[ChildOf(root, y)]);
          assert y in subs;
        } else {
          assert x in subs && NamedInFirstColumn(g, root, x) && r[i] == (c, g[c]);
        }
      }
      forall y | y in subs && NamedInFirstColumn(g, root, y)
        ensures (ChildOf(root, y), g[ChildOf(root, y)]) in r
      {
        if y != x {
          assert y in init;
        }
      }
    }
  }

  /**
   * The guarded branch as the source writes it: start from the cell's
   * suggestions, and when the definition grid (the first two pairs of the
   * cell) is a grid, push the named cells of its first column; the kind
   * becomes an empty input.
   */
  method DefinitionTransform(g: GrammarMap, coord: Coordinate, suggestions: seq<(Coordinate, Grammar)>)
    returns (kind: Kind, s: seq<(Coordinate, Grammar)>)
    requires |coord| > 3
    ensures kind == Input("")
    ensures var root := coord[..2];
      s == suggestions + (if root in g && g[root].kind.Grid? then SubruleNames(g, root, g[root].kind.subs) else [])
  {
    var truncated := Truncate(coord, 3).value;
    var root := Parent(truncated).value;
    assert root == coord[..2];
    s := suggestions;
    if root in g && g[root].kind.Grid? {
      var subs := g[root].kind.subs;
      for i := 0 to |subs|
        invariant s == suggestions + SubruleNames(g, root, subs[..i])
      {
        var c := subs[i];
        assert subs[..i + 1][..i] == subs[..i];
        if c.1 == 1 {
          var fullCoord := ChildOf(root, c);
          if fullCoord in g && g[fullCoord].name == DefnSubruleName {
            s := s + [(fullCoord, g[fullCoord])];
          }
        }
      }
      assert subs[..|subs|] == subs;
    }
    kind := Input("");
  }
}
