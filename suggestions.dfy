/**
 * `get_suggestions` (src/suggestion.rs): the cells the editor offers as
 * completions inside a given cell.  The map is only read.  The source walks
 * `query_col`, whose order is the hash map's, so the suggested cells are
 * specified as a set.
 */
module Suggestions {
  import opened Wrappers
  import opened Coordinates
  import opened Grammars
  import opened Editor

  const DefnName: string := "defn_subrule_name"
  const DefnSubruleName: string := "defn_subrule_name"
  const DefnSubruleGrammar: string := "defn_subrule_grammar"

  /** `coord!("meta-A4")`: the definition-variant cell, column A and row 4 of `meta`. */
  const DefnVariantCoord: Coordinate := [(1, 2), (4, 1)]

  /** The arms of the match on the cell's grammar. */
  datatype Branch = FreeForm | Definition | Listing

  /**
   * The arm a present cell takes.  Only the name decides it: the depth test
   * beside `defn_subrule_grammar` can never hold (see `DepthTestFails`).
   */
  function BranchOf(g: Grammar): Branch {
    if g.name == DefnName || g.name == DefnSubruleName then FreeForm
    else if g.name == DefnSubruleGrammar then Definition
    else Listing
  }

  /**
   * What `get_suggestions` needs not to panic: every key has a last pair
   * (`query_col`), and in the definition arm `meta-A4` is present and the
   * cell has a left neighbour inside a parent grid.
   */
  predicate SuggestDefined(g: GrammarMap, coord: Coordinate) {
    && NoEmptyKey(g)
    && (coord in g && BranchOf(g[coord]) == Definition ==>
          DefnVariantCoord in g && |coord| >= 2 && ColIndex(coord) > 1)
  }

  /** The column just left of `coord`, in the same grid. */
  function LeftCol(coord: Coordinate): (c: Coordinates.Col)
    requires |coord| >= 2 && ColIndex(coord) > 1
    ensures Parent(coord) == Some(c.parent) && c.col + 1 == ColIndex(coord)
  {
    Coordinates.Col(coord[..|coord| - 1], ColIndex(coord) - 1)
  }

  /** The cells suggested for `coord`, apart from the leading `meta-A4` of the definition arm. */
  function SuggestedCells(g: GrammarMap, coord: Coordinate): set<Coordinate>
    requires SuggestDefined(g, coord)
  {
    if coord !in g then {}
    else
      match BranchOf(g[coord])
      case FreeForm => {}
      case Definition => QueryCol(g, LeftCol(coord)) - {coord}
      case Listing => QueryCol(g, MetaCol(1)) - {coord}
  }

  /** `s` lists every cell of `ks` exactly once, each with its grammar, in some order. */
  predicate ListsCells(g: GrammarMap, s: seq<(Coordinate, Grammar)>, ks: set<Coordinate>) {
    && (forall i :: 0 <= i < |s| ==> s[i].0 in ks && s[i].0 in g && s[i].1 == g[s[i].0])
    && (forall i, j :: 0 <= i < j < |s| ==> s[i].0 != s[j].0)
    && (forall k :: k in ks ==> exists i :: 0 <= i < |s| && s[i].0 == k)
  }

  /** The cells of `ks` the loop keeps: present ones other than `coord`. */
  function Kept(g: GrammarMap, ks: set<Coordinate>, coord: Coordinate): set<Coordinate> {
    set k | k in ks && k in g && k != coord
  }

  lemma ListsAdd(g: GrammarMap, s: seq<(Coordinate, Grammar)>, ks: set<Coordinate>, k: Coordinate)
    requires ListsCells(g, s, ks) && k !in ks && k in g
    ensures ListsCells(g, s + [(k, g[k])], ks + {k})
  {
    var t := s + [(k, g[k])];
    forall j | j in ks + {k} ensures exists i :: 0 <= i < |t| && t[i].0 == j {
      if j == k {
        assert t[|s|].0 == k;
      } else {
        var i :| 0 <= i < |s| && s[i].0 == j;
        assert t[i] == s[i];
      }
    }
  }

  /**
   * The `for` loop over a column: skip `coord`, push every other cell that
   * the map holds, with its grammar.
   */
  method PushCells(g: GrammarMap, ks: set<Coordinate>, coord: Coordinate) returns (s: seq<(Coordinate, Grammar)>)
    ensures ListsCells(g, s, Kept(g, ks, coord)) && |s| == |Kept(g, ks, coord)|
  {
    s := [];
    var remaining := ks;
    while remaining != {}
      invariant remaining <= ks
      invariant ListsCells(g, s, Kept(g, ks - remaining, coord)) && |s| == |Kept(g, ks - remaining, coord)|
      decreases remaining
    {
      var k :| k in remaining;
      ghost var before := Kept(g, ks - remaining, coord);
      remaining := remaining - {k};
      if k != coord && k in g {
        ListsAdd(g, s, before, k);
        s := s + [(k, g[k])];
        assert Kept(g, ks - remaining, coord) == before + {k};
      } else {
        assert Kept(g, ks - remaining, coord) == before;
      }
    }
    assert ks - remaining == ks;
  }

  /**
   * `get_suggestions(m, coord)`.  An absent cell, and a cell named
   * `defn_subrule_name`, get nothing.  A cell named `defn_subrule_grammar`
   * gets `meta-A4` first, then the cells of the column to its left.  Any
   * other cell gets the cells of column A of `meta`.  The cell itself is
   * never among the listed cells.
   */
  method GetSuggestions(g: GrammarMap, coord: Coordinate) returns (s: seq<(Coordinate, Grammar)>)
    requires SuggestDefined(g, coord)
    ensures coord in g && BranchOf(g[coord]) == Definition ==>
      |s| == 1 + |SuggestedCells(g, coord)| && s[0] == (DefnVariantCoord, g[DefnVariantCoord])
      && ListsCells(g, s[1..], SuggestedCells(g, coord))
    ensures !(coord in g && BranchOf(g[coord]) == Definition) ==>
      |s| == |SuggestedCells(g, coord)| && ListsCells(g, s, SuggestedCells(g, coord))
  {
    s := [];
    if coord !in g {
      return;
    }
    var grammar := g[coord];
    if grammar.name == DefnName || grammar.name == DefnSubruleName {
      return;
    }
    var depth := IsNParent(Meta, coord);
    if grammar.name == DefnSubruleGrammar || depth.GetOr(0) >= 3 {
      var left := NeighborLeft(coord).value;
      assert FullCol(left) == LeftCol(coord);
      var rest := PushCells(g, QueryCol(g, FullCol(left)), coord);
      KeptIsSuggested(g, coord);
      s := [(DefnVariantCoord, g[DefnVariantCoord])] + rest;
      assert s[1..] == rest;
    } else {
      s := PushCells(g, QueryCol(g, MetaCol(1)), coord);
      KeptIsSuggested(g, coord);
    }
  }

  /** What the loop keeps from the column the arm queries is the specified set. */
  lemma KeptIsSuggested(g: GrammarMap, coord: Coordinate)
    requires SuggestDefined(g, coord) && coord in g && BranchOf(g[coord]) != FreeForm
    ensures BranchOf(g[coord]) == Definition ==> Kept(g, QueryCol(g, LeftCol(coord)), coord) == SuggestedCells(g, coord)
    ensures BranchOf(g[coord]) == Listing ==> Kept(g, QueryCol(g, MetaCol(1)), coord) == SuggestedCells(g, coord)
  {
  }

  // ---------------------------------------------------------------------------
  // Properties.

  /**
   * Absent cells and cells named `defn_subrule_name` get no suggestions, so
   * `get_suggestions` returns the empty list for them.
   */
  lemma NoSuggestionsFor(g: GrammarMap, coord: Coordinate)
    requires SuggestDefined(g, coord)
    requires coord !in g || g[coord].name == DefnSubruleName
    ensures SuggestedCells(g, coord) == {}
    ensures coord in g ==> BranchOf(g[coord]) == FreeForm
  {
  }

  /**
   * `is_n_parent(meta, coord) >= 3` never holds: a one-pair coordinate shares
   * at most one leading pair with anything.
   */
  lemma DepthTestFails(coord: Coordinate, n: nat)
    requires IsCommonPrefixLength(Meta, coord, n)
    ensures n < 3
  {
  }

  /**
   * In the definition arm the exclusion of `coord` is idle: `coord` is not in
   * the column to its left.  Every listed cell shares `coord`'s parent and
   * lies one column to the left.
   */
  lemma DefinitionCellsLeft(g: GrammarMap, coord: Coordinate, k: Coordinate)
    requires SuggestDefined(g, coord) && coord in g && BranchOf(g[coord]) == Definition
    ensures coord !in QueryCol(g, LeftCol(coord))
    ensures k in SuggestedCells(g, coord) <==>
      k in g && |k| == |coord| && Parent(k) == Parent(coord) && ColIndex(k) + 1 == ColIndex(coord)
  {
  }

  /**
   * In the listing arm the suggestions are exactly the present cells of
   * column A of `meta`, except `coord`.
   */
  lemma ListingCells(g: GrammarMap, coord: Coordinate, k: Coordinate)
    requires SuggestDefined(g, coord) && coord in g && BranchOf(g[coord]) == Listing
    ensures k in SuggestedCells(g, coord) <==>
      k in g && k != coord && |k| == 2 && k[0] == (1, 2) && ColIndex(k) == 1
  {
    if k in g && |k| == 2 && k[0] == (1, 2) {
      assert k[..1] == Meta;
    }
  }

  /**
   * A `defn_subrule_grammar` cell in column B of `meta` gets `meta-A4`
   * twice: once in front, and once more among the cells of column A.
   */
  lemma VariantListedTwice(g: GrammarMap, row: Pos)
    requires NoEmptyKey(g) && DefnVariantCoord in g
    requires [(1, 2), (row, 2)] in g && g[[(1, 2), (row, 2)]].name == DefnSubruleGrammar
    ensures SuggestDefined(g, [(1, 2), (row, 2)])
    ensures DefnVariantCoord in SuggestedCells(g, [(1, 2), (row, 2)])
  {
    var coord: Coordinate := [(1, 2), (row, 2)];
    assert BranchOf(g[coord]) == Definition;
    assert LeftCol(coord) == MetaCol(1);
    assert DefnVariantCoord[..1] == Meta;
  }
}
