/**
 * Nested cell coordinates.  A coordinate is the path of (row, column) pairs
 * from the top-level grid (`root` is (1,1), `meta` is (1,2)) down to a cell.
 */
module Coordinates {
  import opened Wrappers

  /** A non-zero index (`NonZeroU32`); the 32-bit upper bound is not modelled. */
  type Pos = n: int | n >= 1 witness 1

  type RowCol = (Pos, Pos)

  type Coordinate = seq<RowCol>

  const Root: Coordinate := [(1, 1)]
  const Meta: Coordinate := [(1, 2)]

  /** A whole row of a grid: the grid's coordinate and the row index. */
  datatype Row = Row(parent: Coordinate, row: Pos)

  /** A whole column of a grid: the grid's coordinate and the column index. */
  datatype Col = Col(parent: Coordinate, col: Pos)

  predicate IsPrefix(p: Coordinate, c: Coordinate) {
    |p| <= |c| && c[..|p|] == p
  }

  function ChildOf(parent: Coordinate, rc: RowCol): (c: Coordinate)
    ensures |c| == |parent| + 1 && IsPrefix(parent, c) && c[|parent|] == rc
  {
    parent + [rc]
  }

  /**
   * The enclosing grid.  Only a one-pair coordinate has none; popping an
   * empty path leaves it empty.
   */
  function Parent(c: Coordinate): (p: Option<Coordinate>)
    ensures p.None? <==> |c| == 1
    ensures |c| == 0 ==> p == Some([])
    ensures |c| >= 2 ==> p.Some? && ChildOf(p.value, c[|c| - 1]) == c
  {
    if |c| == 1 then None
    else if |c| == 0 then Some(c)
    else Some(c[..|c| - 1])
  }

  /** The first `n` pairs, provided the coordinate is strictly longer than `n`. */
  function Truncate(c: Coordinate, n: nat): (t: Option<Coordinate>)
    ensures t.None? <==> |c| <= n
    ensures t.Some? ==> |t.value| == n && IsPrefix(t.value, c)
  {
    if |c| <= n then None else Some(c[..n])
  }

  function Last(c: Coordinate): RowCol
    requires |c| > 0
  {
    c[|c| - 1]
  }

  function RowIndex(c: Coordinate): Pos
    requires |c| > 0
  {
    Last(c).0
  }

  function ColIndex(c: Coordinate): Pos
    requires |c| > 0
  {
    Last(c).1
  }

  /** The row a cell lies in; the source expects a parent and a last pair. */
  function FullRow(c: Coordinate): (r: Row)
    requires |c| >= 2
    ensures Parent(c) == Some(r.parent) && r.row == RowIndex(c)
  {
    Row(c[..|c| - 1], RowIndex(c))
  }

  /** The column a cell lies in; the source expects a parent and a last pair. */
  function FullCol(c: Coordinate): (r: Col)
    requires |c| >= 2
    ensures Parent(c) == Some(r.parent) && r.col == ColIndex(c)
  {
    Col(c[..|c| - 1], ColIndex(c))
  }

  /** Replaces the last pair of a non-empty coordinate. */
  function WithLast(c: Coordinate, rc: RowCol): (d: Coordinate)
    requires |c| > 0
    ensures |d| == |c| && d[..|c| - 1] == c[..|c| - 1] && Last(d) == rc
  {
    c[..|c| - 1] + [rc]
  }

  function NeighborAbove(c: Coordinate): (n: Option<Coordinate>)
    ensures n.Some? <==> |c| > 0 && RowIndex(c) > 1
    ensures n.Some? ==> n.value == WithLast(c, (RowIndex(c) - 1, ColIndex(c)))
  {
    if |c| > 0 && RowIndex(c) > 1 then Some(WithLast(c, (RowIndex(c) - 1, ColIndex(c)))) else None
  }

  function NeighborBelow(c: Coordinate): (n: Option<Coordinate>)
    ensures n.Some? <==> |c| > 0
    ensures n.Some? ==> n.value == WithLast(c, (RowIndex(c) + 1, ColIndex(c)))
  {
    if |c| > 0 then Some(WithLast(c, (RowIndex(c) + 1, ColIndex(c)))) else None
  }

  function NeighborLeft(c: Coordinate): (n: Option<Coordinate>)
    ensures n.Some? <==> |c| > 0 && ColIndex(c) > 1
    ensures n.Some? ==> n.value == WithLast(c, (RowIndex(c), ColIndex(c) - 1))
  {
    if |c| > 0 && ColIndex(c) > 1 then Some(WithLast(c, (RowIndex(c), ColIndex(c) - 1))) else None
  }

  function NeighborRight(c: Coordinate): (n: Option<Coordinate>)
    ensures n.Some? <==> |c| > 0
    ensures n.Some? ==> n.value == WithLast(c, (RowIndex(c), ColIndex(c) + 1))
  {
    if |c| > 0 then Some(WithLast(c, (RowIndex(c), ColIndex(c) + 1))) else None
  }

  /** `n` is the length of the longest common prefix of `a` and `b`. */
  predicate IsCommonPrefixLength(a: Coordinate, b: Coordinate, n: nat) {
    n <= |a| && n <= |b| && a[..n] == b[..n] && (n < |a| && n < |b| ==> a[n] != b[n])
  }

  /**
   * How many leading pairs `a` shares with `b`, or None when `a` is the longer
   * one (is_n_parent: N = 0 for siblings of the top grid, and so on).
   */
  method IsNParent(a: Coordinate, b: Coordinate) returns (r: Option<int>)
    ensures r.None? <==> |a| > |b|
    ensures r.Some? ==> 0 <= r.value && IsCommonPrefixLength(a, b, r.value)
  {
    if |a| > |b| {
      return None;
    }
    var n := 0;
    while n < |a|
      invariant 0 <= n <= |a|
      invariant a[..n] == b[..n]
    {
      if a[n] != b[n] {
        break;
      }
      n := n + 1;
    }
    return Some(n);
  }

  lemma CommonPrefixLengthUnique(a: Coordinate, b: Coordinate, m: nat, n: nat)
    requires IsCommonPrefixLength(a, b, m) && IsCommonPrefixLength(a, b, n)
    ensures m == n
  {
  }

  /** A one-pair coordinate such as `meta` shares at most one pair with anything. */
  lemma SingleCommonPrefixAtMostOne(a: Coordinate, b: Coordinate, n: nat)
    requires |a| == 1 && IsCommonPrefixLength(a, b, n)
    ensures n <= 1
  {
  }

  lemma {:induction false} ParentOfChild(p: Coordinate, rc: RowCol)
    requires |p| >= 1
    ensures Parent(ChildOf(p, rc)) == Some(p)
  {
    assert (p + [rc])[..|p|] == p;
  }

  lemma {:induction false} BelowThenAbove(c: Coordinate)
    requires |c| > 0
    ensures NeighborBelow(c).Some? && NeighborAbove(NeighborBelow(c).value) == Some(c)
  {
    var b := NeighborBelow(c).value;
    assert b[..|c| - 1] == c[..|c| - 1];
    assert WithLast(b, (RowIndex(b) - 1, ColIndex(b))) == c;
  }

  lemma {:induction false} RightThenLeft(c: Coordinate)
    requires |c| > 0
    ensures NeighborRight(c).Some? && NeighborLeft(NeighborRight(c).value) == Some(c)
  {
    var b := NeighborRight(c).value;
    assert b[..|c| - 1] == c[..|c| - 1];
    assert WithLast(b, (RowIndex(b), ColIndex(b) - 1)) == c;
  }

  /** Two cells share a row exactly when they share a parent and a row index. */
  lemma FullRowEq(a: Coordinate, b: Coordinate)
    requires |a| >= 2 && |b| >= 2
    ensures FullRow(a) == FullRow(b) <==> Parent(a) == Parent(b) && RowIndex(a) == RowIndex(b)
  {
  }
}
