/**
 * The editor state and its structural actions (src/model.rs): one open
 * session's grammar map, the active cell and the selection, and the arms of
 * `Model::update` that rearrange cells.
 */
module Editor {
  import opened Wrappers
  import opened Coordinates
  import opened CoordText
  import opened Styles
  import opened Grammars
  import opened GrammarMaps
  import opened GrammarMoves

  /** Completion and binding suggestions shown in the side menu. */
  datatype Suggestion =
    | Completion(name: string, coord: Coordinate)
    | Binding(name: string, coord: Coordinate)

  // ---------------------------------------------------------------------------
  // Queries over the map (`query_parent`, `query_col`, `query_row`).  The
  // source returns the keys in hash-map order; here they are sets.

  /** Every key has a last pair, as `row_col()` on each key demands. */
  predicate NoEmptyKey(g: GrammarMap) {
    [] !in g
  }

  function QueryParent(g: GrammarMap, p: Coordinate): (ks: set<Coordinate>)
    ensures forall k :: k in ks <==> k in g && Parent(k) == Some(p)
  {
    set k | k in g && Parent(k) == Some(p)
  }

  function QueryCol(g: GrammarMap, col: Col): (ks: set<Coordinate>)
    requires NoEmptyKey(g)
    ensures forall k :: k in ks <==>
      k in g && |k| >= 2 && k[..|k| - 1] == col.parent && ColIndex(k) == col.col
  {
    set k | k in g && |k| != 1 && FullCol(k) == col
  }

  function QueryRow(g: GrammarMap, row: Coordinates.Row): (ks: set<Coordinate>)
    requires NoEmptyKey(g)
    ensures forall k :: k in ks <==>
      k in g && |k| >= 2 && k[..|k| - 1] == row.parent && RowIndex(k) == row.row
  {
    set k | k in g && |k| != 1 && FullRow(k) == row
  }

  // ---------------------------------------------------------------------------
  // Single-cell edits.

  /** `ChangeInput`: the new text of an input or lookup cell. */
  function WithInput(g: Grammar, v: string): (r: Grammar)
    ensures r.name == g.name && r.style == g.style
    ensures g.kind.Input? ==> r.kind == Input(v)
    ensures g.kind.Lookup? ==> r.kind == Lookup(v, g.kind.lookup)
    ensures !g.kind.Input? && !g.kind.Lookup? ==> r == g
  {
    match g.kind
    case Input(_) => g.(kind := Input(v))
    case Lookup(_, t) => g.(kind := Lookup(v, t))
    case _ => g
  }

  /** `ToggleLookup`: an input becomes an empty lookup, a lookup an empty input. */
  function Toggled(g: Grammar): (r: Grammar)
    ensures r.name == g.name && r.style == g.style
    ensures g.kind.Input? ==> r.kind == Lookup("", None)
    ensures g.kind.Lookup? ==> r.kind == Input("")
    ensures !g.kind.Input? && !g.kind.Lookup? ==> r == g
  {
    match g.kind
    case Input(_) => g.(kind := Lookup("", None))
    case Lookup(_, _) => g.(kind := Input(""))
    case _ => g
  }

  /** Setting the same text twice is setting it once. */
  lemma WithInputIdempotent(g: Grammar, v: string)
    ensures WithInput(WithInput(g, v), v) == WithInput(g, v)
  {
  }

  /** Toggling twice empties an input or a lookup and leaves its kind as it was. */
  lemma ToggledTwice(g: Grammar)
    ensures g.kind.Input? ==> Toggled(Toggled(g)) == g.(kind := Input(""))
    ensures g.kind.Lookup? ==> Toggled(Toggled(g)) == g.(kind := Lookup("", None))
    ensures !g.kind.Input? && !g.kind.Lookup? ==> Toggled(Toggled(g)) == g
  {
  }

  // ---------------------------------------------------------------------------
  // Selections.  A selection is a rectangle of (row, col) pairs in one grid;
  // `Select(End)` widens it until it contains every span it touches.

  datatype Rect = Rect(top: Pos, left: Pos, bottom: Pos, right: Pos)

  predicate InRect(rc: RowCol, r: Rect) {
    r.top <= rc.0 <= r.bottom && r.left <= rc.1 <= r.right
  }

  /** `outer` contains `inner`. */
  predicate Encloses(outer: Rect, inner: Rect) {
    outer.top <= inner.top && outer.left <= inner.left && inner.bottom <= outer.bottom && inner.right <= outer.right
  }

  /** A merged cell records its span; `(0, _)` or `(_, 0)` means no span. */
  predicate HasColSpan(s: Style) {
    s.colSpan.0 != 0 && s.colSpan.1 != 0
  }

  predicate HasRowSpan(s: Style) {
    s.rowSpan.0 != 0 && s.rowSpan.1 != 0
  }

  predicate SpanInside(s: Style, r: Rect) {
    (HasColSpan(s) ==> r.left <= s.colSpan.0 && s.colSpan.1 <= r.right)
    && (HasRowSpan(s) ==> r.top <= s.rowSpan.0 && s.rowSpan.1 <= r.bottom)
  }

  /** A key of depth `d` whose last pair lies in `r` (its parent is not compared). */
  predicate Covered(g: GrammarMap, d: Pos, r: Rect, k: Coordinate) {
    k in g && |k| == d && InRect(Last(k), r)
  }

  /** Every span touched by `r` lies inside `r`. */
  ghost predicate Closed(g: GrammarMap, d: Pos, r: Rect) {
    forall k :: Covered(g, d, r, k) ==> SpanInside(g[k].style, r)
  }

  /**
   * `r` is the selection grown from `r0`: it contains `r0`, is closed, and
   * lies inside every closed rectangle containing `r0`.
   */
  ghost predicate IsSelection(g: GrammarMap, d: Pos, r0: Rect, r: Rect) {
    Encloses(r, r0) && Closed(g, d, r)
    && forall b :: Closed(g, d, b) && Encloses(b, r0) ==> Encloses(b, r)
  }

  /** The grown selection is unique. */
  lemma SelectionUnique(g: GrammarMap, d: Pos, r0: Rect, r1: Rect, r2: Rect)
    requires IsSelection(g, d, r0, r1) && IsSelection(g, d, r0, r2)
    ensures r1 == r2
  {
  }

  /** Each bound of `r2` is the bound of `r` or an end of a span touched by `r`. */
  ghost predicate Attained(g: GrammarMap, d: Pos, r: Rect, r2: Rect) {
    (r2.left == r.left || exists k :: Covered(g, d, r, k) && HasColSpan(g[k].style) && g[k].style.colSpan.0 == r2.left)
    && (r2.right == r.right || exists k :: Covered(g, d, r, k) && HasColSpan(g[k].style) && g[k].style.colSpan.1 == r2.right)
    && (r2.top == r.top || exists k :: Covered(g, d, r, k) && HasRowSpan(g[k].style) && g[k].style.rowSpan.0 == r2.top)
    && (r2.bottom == r.bottom || exists k :: Covered(g, d, r, k) && HasRowSpan(g[k].style) && g[k].style.rowSpan.1 == r2.bottom)
  }

  /** Widening by spans touched by `r` never leaves a closed rectangle containing `r`. */
  lemma AttainedStaysInside(g: GrammarMap, d: Pos, r: Rect, r2: Rect, b: Rect)
    requires Attained(g, d, r, r2) && Closed(g, d, b) && Encloses(b, r)
    ensures Encloses(b, r2)
  {
    forall k | Covered(g, d, r, k) ensures Covered(g, d, b, k) {
    }
  }

  /** Every span end in the map: the only values a widened bound can take. */
  ghost function SpanValues(g: GrammarMap): set<int> {
    (set k | k in g :: g[k].style.colSpan.0 as int) + (set k | k in g :: g[k].style.colSpan.1 as int)
    + (set k | k in g :: g[k].style.rowSpan.0 as int) + (set k | k in g :: g[k].style.rowSpan.1 as int)
  }

  ghost function ValuesBelow(g: GrammarMap, v: int): set<int> {
    set x | x in SpanValues(g) && x < v
  }

  ghost function ValuesAbove(g: GrammarMap, v: int): set<int> {
    set x | x in SpanValues(g) && x > v
  }

  /** One cell's spans pull the bounds outward; a bound only ever moves out to a span end. */
  function WidenBy(r: Rect, s: Style): (r2: Rect)
    ensures Encloses(r2, r) && SpanInside(s, r2)
    ensures r2.left == r.left || (HasColSpan(s) && r2.left == s.colSpan.0)
    ensures r2.right == r.right || (HasColSpan(s) && r2.right == s.colSpan.1)
    ensures r2.top == r.top || (HasRowSpan(s) && r2.top == s.rowSpan.0)
    ensures r2.bottom == r.bottom || (HasRowSpan(s) && r2.bottom == s.rowSpan.1)
  {
    var c := if HasColSpan(s) then
        r.(left := if s.colSpan.0 < r.left then s.colSpan.0 else r.left,
           right := if s.colSpan.1 > r.right then s.colSpan.1 else r.right)
      else r;
    if HasRowSpan(s) then
      c.(top := if s.rowSpan.0 < c.top then s.rowSpan.0 else c.top,
         bottom := if s.rowSpan.1 > c.bottom then s.rowSpan.1 else c.bottom)
    else c
  }

  /** Widening is monotone: spans already inside stay inside. */
  lemma WidenByKeepsInside(r: Rect, s: Style, t: Style)
    requires SpanInside(t, r)
    ensures SpanInside(t, WidenBy(r, s))
  {
  }

  /**
   * One pass of the widening loop: every key of depth `d` whose last pair is
   * in `r` (as `r` was when the pass began) pulls the bounds out to its spans.
   */
  method WidenPass(g: GrammarMap, d: Pos, r: Rect) returns (r2: Rect, moved: bool)
    requires NoEmptyKey(g)
    ensures Encloses(r2, r) && Attained(g, d, r, r2)
    ensures forall k :: Covered(g, d, r, k) ==> SpanInside(g[k].style, r2)
    ensures moved <==> r2 != r
  {
    r2 := r;
    moved := false;
    var remaining := g.Keys;
    while remaining != {}
      invariant remaining <= g.Keys
      invariant Encloses(r2, r) && Attained(g, d, r, r2)
      invariant forall k :: k in g.Keys - remaining && Covered(g, d, r, k) ==> SpanInside(g[k].style, r2)
      invariant moved <==> r2 != r
      decreases remaining
    {
      var k :| k in remaining;
      remaining := remaining - {k};
      var (row, col) := Last(k);
      if r.top <= row <= r.bottom && r.left <= col <= r.right && |k| == d {
        var r3 := WidenBy(r2, g[k].style);
        forall k' | k' in g.Keys - remaining && Covered(g, d, r, k') ensures SpanInside(g[k'].style, r3) {
          if k' != k {
            WidenByKeepsInside(r2, g[k].style, g[k'].style);
          }
        }
        assert Covered(g, d, r, k);
        moved := moved || r3 != r2;
        r2 := r3;
      }
    }
  }

  /** `Select(End)` waits until no pass moves a bound. */
  method GrowSelection(g: GrammarMap, d: Pos, r0: Rect) returns (r: Rect)
    requires NoEmptyKey(g)
    ensures IsSelection(g, d, r0, r)
  {
    r := r0;
    var check := false;
    while !check
      invariant Encloses(r, r0)
      invariant forall b :: Closed(g, d, b) && Encloses(b, r0) ==> Encloses(b, r)
      invariant check ==> Closed(g, d, r)
      decreases ValuesBelow(g, r.left), ValuesBelow(g, r.top), ValuesAbove(g, r.right), ValuesAbove(g, r.bottom),
        if check then 0 else 1
    {
      var r2, moved := WidenPass(g, d, r);
      forall b | Closed(g, d, b) && Encloses(b, r0) ensures Encloses(b, r2) {
        AttainedStaysInside(g, d, r, r2, b);
      }
      WidenShrinks(g, d, r, r2);
      r := r2;
      check := !moved;
    }
  }

  /** A pass that moves a bound moves it to a span end, consuming one candidate value. */
  lemma WidenShrinks(g: GrammarMap, d: Pos, r: Rect, r2: Rect)
    requires Encloses(r2, r) && Attained(g, d, r, r2)
    ensures ValuesBelow(g, r2.left) <= ValuesBelow(g, r.left)
    ensures r2.left < r.left ==> ValuesBelow(g, r2.left) < ValuesBelow(g, r.left)
    ensures ValuesBelow(g, r2.top) <= ValuesBelow(g, r.top)
    ensures r2.top < r.top ==> ValuesBelow(g, r2.top) < ValuesBelow(g, r.top)
    ensures ValuesAbove(g, r2.right) <= ValuesAbove(g, r.right)
    ensures r2.right > r.right ==> ValuesAbove(g, r2.right) < ValuesAbove(g, r.right)
    ensures ValuesAbove(g, r2.bottom) <= ValuesAbove(g, r.bottom)
    ensures r2.bottom > r.bottom ==> ValuesAbove(g, r2.bottom) < ValuesAbove(g, r.bottom)
  {
    if r2.left < r.left {
      var k :| Covered(g, d, r, k) && HasColSpan(g[k].style) && g[k].style.colSpan.0 == r2.left;
      assert r2.left in SpanValues(g);
      assert r2.left in ValuesBelow(g, r.left) - ValuesBelow(g, r2.left);
    }
    if r2.top < r.top {
      var k :| Covered(g, d, r, k) && HasRowSpan(g[k].style) && g[k].style.rowSpan.0 == r2.top;
      assert r2.top in SpanValues(g);
      assert r2.top in ValuesBelow(g, r.top) - ValuesBelow(g, r2.top);
    }
    if r2.right > r.right {
      var k :| Covered(g, d, r, k) && HasColSpan(g[k].style) && g[k].style.colSpan.1 == r2.right;
      assert r2.right in SpanValues(g);
      assert r2.right in ValuesAbove(g, r.right) - ValuesAbove(g, r2.right);
    }
    if r2.bottom > r.bottom {
      var k :| Covered(g, d, r, k) && HasRowSpan(g[k].style) && g[k].style.rowSpan.1 == r2.bottom;
      assert r2.bottom in SpanValues(g);
      assert r2.bottom in ValuesAbove(g, r.bottom) - ValuesAbove(g, r2.bottom);
    }
  }

  /** The depth at which a selection from `a` to `b` is taken: the shallower of the two. */
  function CommonDepth(a: Coordinate, b: Coordinate): nat {
    if |a| < |b| then |a| else |b|
  }

  /**
   * `Select(End)` finishes only when both ends are non-empty and agree above
   * the common depth; otherwise the source walks up forever or unwraps `None`.
   */
  predicate SelectEndDefined(a: Coordinate, b: Coordinate) {
    |a| >= 1 && |b| >= 1 && a[..CommonDepth(a, b) - 1] == b[..CommonDepth(a, b) - 1]
  }

  /** The rectangle spanned by the two ends' pairs at the common depth, corners ordered. */
  function InitialRect(a: Coordinate, b: Coordinate): (r: Rect)
    requires SelectEndDefined(a, b)
    ensures r.top <= r.bottom && r.left <= r.right
    ensures InRect(a[CommonDepth(a, b) - 1], r) && InRect(b[CommonDepth(a, b) - 1], r)
    ensures {r.top, r.bottom} == {a[CommonDepth(a, b) - 1].0, b[CommonDepth(a, b) - 1].0}
    ensures {r.left, r.right} == {a[CommonDepth(a, b) - 1].1, b[CommonDepth(a, b) - 1].1}
  {
    var d := CommonDepth(a, b);
    var (r1, c1) := a[d - 1];
    var (r2, c2) := b[d - 1];
    Rect(if r1 > r2 then r2 else r1, if c1 > c2 then c2 else c1, if r1 > r2 then r1 else r2, if c1 > c2 then c1 else c2)
  }

  /** What `Select(End)` leaves: both ends at the common depth, under one parent, at the grown corners. */
  ghost predicate SelectedAs(g: GrammarMap, a: Coordinate, b: Coordinate, first: Coordinate, last: Coordinate)
    requires SelectEndDefined(a, b)
  {
    var d := CommonDepth(a, b);
    |first| == d && |last| == d && first[..d - 1] == a[..d - 1] && last[..d - 1] == b[..d - 1]
    && IsSelection(g, d, InitialRect(a, b), Rect(Last(first).0, Last(first).1, Last(last).0, Last(last).1))
  }

  /** The selection's corners are ordered: start is above and left of end. */
  lemma SelectedOrdered(g: GrammarMap, a: Coordinate, b: Coordinate, first: Coordinate, last: Coordinate)
    requires SelectEndDefined(a, b) && SelectedAs(g, a, b, first, last)
    ensures first[..|first| - 1] == last[..|last| - 1]
    ensures Last(first).0 <= Last(last).0 && Last(first).1 <= Last(last).1
  {
  }

  /** The first half of `Select(End)`: walk the deeper end up to the shallower one's depth. */
  method WalkToCommonDepth(a: Coordinate, b: Coordinate) returns (start: Coordinate, end: Coordinate)
    requires SelectEndDefined(a, b)
    ensures start == a[..CommonDepth(a, b)] && end == b[..CommonDepth(a, b)]
  {
    ghost var dd := CommonDepth(a, b);
    start := a;
    var commonParent := Parent(start);
    end := b;
    var depthStart := |start|;
    var depthEnd := |end|;
    if depthStart < depthEnd {
      while Parent(end) != commonParent
        invariant depthStart <= |end| <= depthEnd && end == b[..|end|]
        invariant |end| == depthStart ==> Parent(end) == commonParent
        decreases |end|
      {
        end := Parent(end).value;
        assert end[..|end| - 1] == b[..|end| - 1];
      }
      assert |end| == depthStart;
    } else {
      commonParent := Parent(end);
      while Parent(start) != commonParent
        invariant depthEnd <= |start| <= depthStart && start == a[..|start|]
        invariant |start| == depthEnd ==> Parent(start) == commonParent
        decreases |start|
      {
        start := Parent(start).value;
        assert start[..|start| - 1] == a[..|start| - 1];
      }
      assert |start| == depthEnd;
    }
  }

  // ---------------------------------------------------------------------------
  // Range actions on a full selection: `RangeDelete` and `MergeCells`.

  /** The rectangle between the two selection ends' last pairs (empty when they are out of order). */
  function SelRect(first: Coordinate, last: Coordinate): Rect
    requires |first| >= 1 && |last| >= 1
  {
    Rect(RowIndex(first), ColIndex(first), RowIndex(last), ColIndex(last))
  }

  /** `k` is a sibling of the selection's end whose last pair lies in the rectangle. */
  predicate InSelection(first: Coordinate, last: Coordinate, k: Coordinate)
    requires |first| >= 1 && |last| >= 1
  {
    |k| >= 1 && InRect(Last(k), SelRect(first, last)) && Parent(k) == Parent(last)
  }

  /** The cell `k` after `RangeDelete`, from the map as it was. */
  function RangeDeletedAt(g: GrammarMap, first: Coordinate, last: Coordinate, k: Coordinate): Grammar
    requires |first| >= 1 && |last| >= 1 && k in g
  {
    if (InSelection(first, last, k) && g[k].kind.Input?) || ChildOfSelectedGrid(g, first, last, k)
    then g[k].(kind := Input(""))
    else g[k]
  }

  /** `k` sits directly inside a selected grid. */
  predicate ChildOfSelectedGrid(g: GrammarMap, first: Coordinate, last: Coordinate, k: Coordinate)
    requires |first| >= 1 && |last| >= 1
  {
    |k| >= 2 && k[..|k| - 1] in g && InSelection(first, last, k[..|k| - 1]) && g[k[..|k| - 1]].kind.Grid?
  }

  function RangeDeleted(g: GrammarMap, first: Coordinate, last: Coordinate): (r: GrammarMap)
    requires |first| >= 1 && |last| >= 1
    ensures r.Keys == g.Keys
  {
    map k | k in g :: RangeDeletedAt(g, first, last, k)
  }

  /**
   * `RangeDelete` only empties: names and styles stay, a cleared cell is an
   * empty input, and a cell it did not clear is untouched.
   */
  lemma RangeDeletedEmpties(g: GrammarMap, first: Coordinate, last: Coordinate, k: Coordinate)
    requires |first| >= 1 && |last| >= 1 && k in g
    ensures RangeDeleted(g, first, last)[k].name == g[k].name
    ensures RangeDeleted(g, first, last)[k].style == g[k].style
    ensures RangeDeleted(g, first, last)[k] == g[k] || RangeDeleted(g, first, last)[k].kind == Input("")
  {
  }

  /** Deleting the same range twice is deleting it once. */
  lemma {:induction false} RangeDeleteIdempotent(g: GrammarMap, first: Coordinate, last: Coordinate)
    requires |first| >= 1 && |last| >= 1
    ensures RangeDeleted(RangeDeleted(g, first, last), first, last) == RangeDeleted(g, first, last)
  {
    var g1 := RangeDeleted(g, first, last);
    forall k | k in g1 ensures RangeDeletedAt(g1, first, last, k) == g1[k] {
      if ChildOfSelectedGrid(g1, first, last, k) {
        var p := k[..|k| - 1];
        // A selected grid is not itself inside a selected grid, so it is still a grid.
        assert Parent(p) == Parent(last);
        assert !ChildOfSelectedGrid(g, first, last, p);
        assert g[p].kind.Grid? && !InSelection(first, last, k);
      }
    }
  }

  /** One child of a selected grid emptied. */
  method ClearChildren(ref: GrammarMap, cur: GrammarMap, owner: Coordinate) returns (r: GrammarMap)
    ensures r.Keys == cur.Keys + (set c | c in ref && Parent(c) == Some(owner))
    ensures forall c :: c in r ==>
      r[c] == if c in ref && Parent(c) == Some(owner) then ref[c].(kind := Input("")) else cur[c]
  {
    r := cur;
    var remaining := ref.Keys;
    while remaining != {}
      invariant remaining <= ref.Keys
      invariant r.Keys == cur.Keys + (set c | c in ref.Keys - remaining && Parent(c) == Some(owner))
      invariant forall c :: c in r ==>
        r[c] == if c in ref.Keys - remaining && Parent(c) == Some(owner) then ref[c].(kind := Input("")) else cur[c]
      decreases remaining
    {
      var c :| c in remaining;
      remaining := remaining - {c};
      if Parent(c).Some? && Parent(c).value == owner {
        r := r[c := ref[c].(kind := Input(""))];
      }
    }
  }

  /** What the loop of `RangeDelete` has written after visiting the cells in `done`. */
  ghost predicate DeleteProgress(ref: GrammarMap, first: Coordinate, last: Coordinate, done: set<Coordinate>, cur: GrammarMap)
    requires |first| >= 1 && |last| >= 1
  {
    && cur.Keys == ref.Keys
    && forall k :: k in ref ==> (cur[k] ==
        if (k in done && InSelection(first, last, k) && ref[k].kind.Input?)
           || (ChildOfSelectedGrid(ref, first, last, k) && k[..|k| - 1] in done)
        then ref[k].(kind := Input(""))
        else ref[k])
  }

  /** The loop of `RangeDelete`, over the map as it was when the action started. */
  method RangeDeleteMap(ref: GrammarMap, first: Coordinate, last: Coordinate) returns (r: GrammarMap)
    requires |first| >= 1 && |last| >= 1
    ensures r == RangeDeleted(ref, first, last)
  {
    var cur := ref;
    var remaining := ref.Keys;
    while remaining != {}
      invariant remaining <= ref.Keys
      invariant DeleteProgress(ref, first, last, ref.Keys - remaining, cur)
      decreases remaining
    {
      var coord :| coord in remaining;
      ghost var done := ref.Keys - remaining;
      cur := DeleteStep(ref, first, last, done, cur, coord);
      VisitOne(ref.Keys, remaining, coord);
      remaining := remaining - {coord};
    }
    assert ref.Keys - remaining == ref.Keys;
    r := cur;
  }

  /** One iteration of the `RangeDelete` loop. */
  method DeleteStep(ref: GrammarMap, first: Coordinate, last: Coordinate, ghost done: set<Coordinate>,
                    cur: GrammarMap, coord: Coordinate) returns (cur': GrammarMap)
    requires |first| >= 1 && |last| >= 1 && coord in ref && coord !in done
    requires DeleteProgress(ref, first, last, done, cur)
    ensures DeleteProgress(ref, first, last, done + {coord}, cur')
  {
    cur' := cur;
    if InSelection(first, last, coord) {
      match ref[coord].kind {
        case Input(_) =>
          cur' := cur[coord := ref[coord].(kind := Input(""))];
        case Grid(_) =>
          cur' := ClearChildren(ref, cur, coord);
          ChildrenCleared(ref, first, last, done, cur, coord, cur');
        case _ =>
      }
    }
  }

  lemma ChildrenCleared(ref: GrammarMap, first: Coordinate, last: Coordinate, done: set<Coordinate>,
                        cur: GrammarMap, coord: Coordinate, cur': GrammarMap)
    requires |first| >= 1 && |last| >= 1 && coord in ref && coord !in done
    requires InSelection(first, last, coord) && ref[coord].kind.Grid?
    requires DeleteProgress(ref, first, last, done, cur)
    requires cur'.Keys == cur.Keys + (set c | c in ref && Parent(c) == Some(coord))
    requires forall c :: c in cur' ==>
      cur'[c] == if c in ref && Parent(c) == Some(coord) then ref[c].(kind := Input("")) else cur[c]
    ensures DeleteProgress(ref, first, last, done + {coord}, cur')
  {
    forall k | k in ref
      ensures (ChildOfSelectedGrid(ref, first, last, k) && k[..|k| - 1] == coord) <==> Parent(k) == Some(coord)
    {
      if |k| >= 2 {
        assert Parent(k) == Some(k[..|k| - 1]);
      } else {
        assert Parent(k) != Some(coord);
      }
    }
  }

  /** A cell whose printed form contains `root-`: one strictly inside the root grid. */
  predicate UnderRoot(k: Coordinate) {
    |k| >= 2 && k[0] == (1, 1)
  }

  /** A cell `MergeCells` rewrites. */
  predicate MergeTarget(first: Coordinate, last: Coordinate, k: Coordinate)
    requires |first| >= 1 && |last| >= 1
  {
    UnderRoot(k) && InSelection(first, last, k)
  }

  /** A rewritten cell: an empty input spanning the rectangle, hidden unless it is the bottom-right one. */
  function MergedAt(g: Grammar, first: Coordinate, last: Coordinate, k: Coordinate): (r: Grammar)
    requires |first| >= 1 && |last| >= 1 && |k| >= 1
    ensures r.name == g.name && r.kind == Input("")
    ensures r.style.colSpan == (ColIndex(first), ColIndex(last))
    ensures r.style.rowSpan == (RowIndex(first), RowIndex(last))
    ensures r.style.display <==> g.style.display && Last(k) == Last(last)
    ensures r.style.(display := g.style.display, colSpan := g.style.colSpan, rowSpan := g.style.rowSpan) == g.style
  {
    g.(kind := Input(""),
       style := g.style.(display := g.style.display && Last(k) == Last(last),
                         colSpan := (ColIndex(first), ColIndex(last)),
                         rowSpan := (RowIndex(first), RowIndex(last))))
  }

  /** The width (horizontal) or height of a cell. */
  function Extent(g: Grammar, horizontal: bool): real {
    if horizontal then g.style.width else g.style.height
  }

  ghost function Pick(s: set<Coordinate>): (k: Coordinate)
    requires s != {}
    ensures k in s
  {
    var k :| k in s; k
  }

  /** The sum of the extents of a set of cells, in exact arithmetic. */
  ghost function SumExtent(g: GrammarMap, s: set<Coordinate>, horizontal: bool): real
    requires s <= g.Keys
    decreases s
  {
    if s == {} then 0.0 else Extent(g[Pick(s)], horizontal) + SumExtent(g, s - {Pick(s)}, horizontal)
  }

  lemma {:induction false} SumExtentRemove(g: GrammarMap, s: set<Coordinate>, k: Coordinate, horizontal: bool)
    requires s <= g.Keys && k in s
    ensures SumExtent(g, s, horizontal) == Extent(g[k], horizontal) + SumExtent(g, s - {k}, horizontal)
    decreases s
  {
    var j := Pick(s);
    if j != k {
      SumExtentRemove(g, s - {j}, k, horizontal);
      SumExtentRemove(g, s - {k}, j, horizontal);
      assert s - {j} - {k} == s - {k} - {j};
    }
  }

  lemma SumExtentAdd(g: GrammarMap, s: set<Coordinate>, k: Coordinate, horizontal: bool)
    requires s <= g.Keys && k in g && k !in s
    ensures SumExtent(g, s + {k}, horizontal) == SumExtent(g, s, horizontal) + Extent(g[k], horizontal)
  {
    SumExtentRemove(g, s + {k}, k, horizontal);
    assert s + {k} - {k} == s;
  }

  /** The visible rewritten cells in the last row (horizontal) or last column of the selection. */
  function VisibleEdge(g: GrammarMap, first: Coordinate, last: Coordinate, among: set<Coordinate>, horizontal: bool): (s: set<Coordinate>)
    requires |first| >= 1 && |last| >= 1
    ensures s <= g.Keys * among
  {
    set k | k in among && k in g && MergeTarget(first, last, k) && g[k].style.display &&
      (if horizontal then RowIndex(k) == RowIndex(last) else ColIndex(k) == ColIndex(last))
  }

  /** The bottom-right cell is a visible target, so its `max_coord` is the selection's end. */
  predicate CornerVisible(g: GrammarMap, first: Coordinate, last: Coordinate)
    requires |first| >= 1 && |last| >= 1
  {
    last in g && MergeTarget(first, last, last) && g[last].style.display
  }

  /**
   * `MergeCells` on the map as it was: every target rewritten, then the
   * bottom-right cell (or the empty key when it is not a visible target)
   * given the summed width and height.
   */
  ghost function Merged(g: GrammarMap, first: Coordinate, last: Coordinate): GrammarMap
    requires |first| >= 1 && |last| >= 1
  {
    var looped := map k | k in g :: if MergeTarget(first, last, k) then MergedAt(g[k], first, last, k) else g[k];
    var maxCoord: Coordinate := if CornerVisible(g, first, last) then last else [];
    var maxGrammar := if CornerVisible(g, first, last) then g[last] else DefaultGrammar();
    looped[maxCoord := Corner(g, first, last, maxGrammar)]
  }

  /** The grammar written at `max_coord`: `base` rewritten, carrying the summed width and height. */
  ghost function Corner(g: GrammarMap, first: Coordinate, last: Coordinate, base: Grammar): Grammar
    requires |first| >= 1 && |last| >= 1
  {
    var r := MergedAt(base, first, last, last);
    r.(style := r.style.(width := SumExtent(g, VisibleEdge(g, first, last, g.Keys, true), true),
                         height := SumExtent(g, VisibleEdge(g, first, last, g.Keys, false), false)))
  }

  /** One cell of the merged map. */
  lemma MergedAtKey(g: GrammarMap, first: Coordinate, last: Coordinate, k: Coordinate)
    requires |first| >= 1 && |last| >= 1 && k in g
    ensures Merged(g, first, last)[k] ==
      if CornerVisible(g, first, last) && k == last then Corner(g, first, last, g[last])
      else if !CornerVisible(g, first, last) && k == [] then Corner(g, first, last, DefaultGrammar())
      else if MergeTarget(first, last, k) then MergedAt(g[k], first, last, k)
      else g[k]
  {
  }

  /** A visible rewritten cell in the selection's last row and column is the selection's end itself. */
  lemma CornerIsLast(first: Coordinate, last: Coordinate, k: Coordinate)
    requires |first| >= 1 && |last| >= 1 && MergeTarget(first, last, k)
    requires Last(k) == Last(last)
    ensures k == last
  {
    assert k == k[..|k| - 1] + [Last(k)];
    assert last == last[..|last| - 1] + [Last(last)];
  }

  /** The cells of the map after `MergeCells` has visited the cells in `done`. */
  ghost predicate CellsVisited(ref: GrammarMap, first: Coordinate, last: Coordinate, done: set<Coordinate>, cur: GrammarMap)
    requires |first| >= 1 && |last| >= 1
  {
    && cur.Keys == ref.Keys
    && (forall k :: k in ref ==> (cur[k] ==
          if k in done && MergeTarget(first, last, k) then MergedAt(ref[k], first, last, k) else ref[k]))
  }

  /** `max_coord` and `max_grammar` after visiting the cells in `done`. */
  predicate CornerSeen(ref: GrammarMap, first: Coordinate, last: Coordinate, done: set<Coordinate>,
                       maxCoord: Coordinate, maxGrammar: Grammar)
    requires |first| >= 1 && |last| >= 1
  {
    if CornerVisible(ref, first, last) && last in done
    then maxCoord == last && maxGrammar == ref[last]
    else maxCoord == [] && maxGrammar == DefaultGrammar()
  }

  /** What `MergeCells` has built after visiting the cells in `done`. */
  ghost predicate MergeProgress(ref: GrammarMap, first: Coordinate, last: Coordinate, done: set<Coordinate>,
                                cur: GrammarMap, mergeWidth: real, mergeHeight: real,
                                maxCoord: Coordinate, maxGrammar: Grammar)
    requires |first| >= 1 && |last| >= 1
  {
    && CellsVisited(ref, first, last, done, cur)
    && mergeWidth == SumExtent(ref, VisibleEdge(ref, first, last, done, true), true)
    && mergeHeight == SumExtent(ref, VisibleEdge(ref, first, last, done, false), false)
    && CornerSeen(ref, first, last, done, maxCoord, maxGrammar)
  }

  lemma CellsStep(ref: GrammarMap, first: Coordinate, last: Coordinate, done: set<Coordinate>,
                  cur: GrammarMap, coord: Coordinate, cur': GrammarMap)
    requires |first| >= 1 && |last| >= 1 && coord in ref
    requires CellsVisited(ref, first, last, done, cur)
    requires cur' == if MergeTarget(first, last, coord) then cur[coord := MergedAt(ref[coord], first, last, coord)] else cur
    ensures CellsVisited(ref, first, last, done + {coord}, cur')
  {
  }

  /** One iteration of the `MergeCells` loop. */
  method MergeStep(ref: GrammarMap, first: Coordinate, last: Coordinate, ghost done: set<Coordinate>,
                   cur: GrammarMap, mergeWidth: real, mergeHeight: real,
                   maxCoord: Coordinate, maxGrammar: Grammar, coord: Coordinate)
    returns (cur': GrammarMap, mergeWidth': real, mergeHeight': real, maxCoord': Coordinate, maxGrammar': Grammar)
    requires |first| >= 1 && |last| >= 1 && coord in ref && coord !in done && Printable(coord)
    requires MergeProgress(ref, first, last, done, cur, mergeWidth, mergeHeight, maxCoord, maxGrammar)
    ensures MergeProgress(ref, first, last, done + {coord}, cur', mergeWidth', mergeHeight', maxCoord', maxGrammar')
  {
    cur', mergeWidth', mergeHeight', maxCoord', maxGrammar' := cur, mergeWidth, mergeHeight, maxCoord, maxGrammar;
    RootInfix(coord);
    var hit := Contains(ToString(coord), "root-") && InSelection(first, last, coord);
    assert hit == MergeTarget(first, last, coord);
    if hit {
      var grammar := ref[coord];
      if grammar.style.display {
        if RowIndex(coord) == RowIndex(last) {
          mergeWidth' := mergeWidth' + grammar.style.width;
        }
        if ColIndex(coord) == ColIndex(last) {
          mergeHeight' := mergeHeight' + grammar.style.height;
        }
        if Last(coord) == Last(last) {
          maxCoord', maxGrammar' := coord, grammar;
        }
      }
      cur' := cur'[coord := MergedAt(grammar, first, last, coord)];
    }
    CellsStep(ref, first, last, done, cur, coord, cur');
    EdgeSumStep(ref, first, last, done, coord, true, mergeWidth, mergeWidth');
    EdgeSumStep(ref, first, last, done, coord, false, mergeHeight, mergeHeight');
    CornerStep(ref, first, last, done, coord, maxCoord, maxGrammar, maxCoord', maxGrammar');
  }

  /** A visible target on the edge adds its extent to that edge's sum. */
  lemma EdgeSumStep(ref: GrammarMap, first: Coordinate, last: Coordinate, done: set<Coordinate>,
                    coord: Coordinate, horizontal: bool, sum: real, sum': real)
    requires |first| >= 1 && |last| >= 1 && coord in ref && coord !in done
    requires sum == SumExtent(ref, VisibleEdge(ref, first, last, done, horizontal), horizontal)
    requires sum' == sum + if MergeTarget(first, last, coord) && ref[coord].style.display &&
      (if horizontal then RowIndex(coord) == RowIndex(last) else ColIndex(coord) == ColIndex(last))
      then Extent(ref[coord], horizontal) else 0.0
    ensures sum' == SumExtent(ref, VisibleEdge(ref, first, last, done + {coord}, horizontal), horizontal)
  {
    EdgeStep(ref, first, last, done, coord, horizontal);
  }

  /** `max_coord` moves to the visited cell exactly when it is the visible bottom-right target. */
  lemma CornerStep(ref: GrammarMap, first: Coordinate, last: Coordinate, done: set<Coordinate>, coord: Coordinate,
                   maxCoord: Coordinate, maxGrammar: Grammar, maxCoord': Coordinate, maxGrammar': Grammar)
    requires |first| >= 1 && |last| >= 1 && coord in ref && coord !in done
    requires CornerSeen(ref, first, last, done, maxCoord, maxGrammar)
    requires (maxCoord', maxGrammar') ==
      if MergeTarget(first, last, coord) && ref[coord].style.display && Last(coord) == Last(last)
      then (coord, ref[coord]) else (maxCoord, maxGrammar)
    ensures CornerSeen(ref, first, last, done + {coord}, maxCoord', maxGrammar')
  {
    if MergeTarget(first, last, coord) && Last(coord) == Last(last) {
      CornerIsLast(first, last, coord);
    }
  }

  /** The loop of `MergeCells`, over the map as it was when the action started. */
  method MergeMap(ref: GrammarMap, first: Coordinate, last: Coordinate) returns (r: GrammarMap)
    requires |first| >= 1 && |last| >= 1 && forall k :: k in ref ==> Printable(k)
    ensures r == Merged(ref, first, last)
  {
    var cur := ref;
    var mergeWidth, mergeHeight := 0.0, 0.0;
    var maxCoord: Coordinate, maxGrammar := [], DefaultGrammar();
    var remaining := ref.Keys;
    while remaining != {}
      invariant remaining <= ref.Keys
      invariant MergeProgress(ref, first, last, ref.Keys - remaining, cur, mergeWidth, mergeHeight, maxCoord, maxGrammar)
      decreases remaining
    {
      var coord :| coord in remaining;
      ghost var done := ref.Keys - remaining;
      cur, mergeWidth, mergeHeight, maxCoord, maxGrammar :=
        MergeStep(ref, first, last, done, cur, mergeWidth, mergeHeight, maxCoord, maxGrammar, coord);
      VisitOne(ref.Keys, remaining, coord);
      remaining := remaining - {coord};
    }
    assert ref.Keys - remaining == ref.Keys;
    MergeDone(ref, first, last, cur, mergeWidth, mergeHeight, maxCoord, maxGrammar);
    r := WriteCorner(cur, first, last, maxCoord, maxGrammar, mergeWidth, mergeHeight);
  }

  /** The last write of `MergeCells`: `max_grammar` rewritten, with the summed width and height. */
  function WriteCorner(cur: GrammarMap, first: Coordinate, last: Coordinate, maxCoord: Coordinate,
                       maxGrammar: Grammar, mergeWidth: real, mergeHeight: real): (r: GrammarMap)
    requires |first| >= 1 && |last| >= 1
    ensures r.Keys == cur.Keys + {maxCoord}
    ensures r[maxCoord].style.width == mergeWidth && r[maxCoord].style.height == mergeHeight
  {
    var top := MergedAt(maxGrammar, first, last, last);
    cur[maxCoord := top.(style := top.style.(width := mergeWidth, height := mergeHeight))]
  }

  lemma MergeDone(ref: GrammarMap, first: Coordinate, last: Coordinate,
                  cur: GrammarMap, mergeWidth: real, mergeHeight: real,
                  maxCoord: Coordinate, maxGrammar: Grammar)
    requires |first| >= 1 && |last| >= 1
    requires MergeProgress(ref, first, last, ref.Keys, cur, mergeWidth, mergeHeight, maxCoord, maxGrammar)
    ensures Merged(ref, first, last) == WriteCorner(cur, first, last, maxCoord, maxGrammar, mergeWidth, mergeHeight)
  {
    CellsDone(ref, first, last, cur);
    var base := if CornerVisible(ref, first, last) then ref[last] else DefaultGrammar();
    assert (maxCoord, maxGrammar) == (if CornerVisible(ref, first, last) then last else [], base);
    assert Corner(ref, first, last, base) ==
      WriteCorner(cur, first, last, maxCoord, maxGrammar, mergeWidth, mergeHeight)[maxCoord];
  }

  /** Once every cell is visited, the loop has rewritten exactly the targets. */
  lemma CellsDone(ref: GrammarMap, first: Coordinate, last: Coordinate, cur: GrammarMap)
    requires |first| >= 1 && |last| >= 1 && CellsVisited(ref, first, last, ref.Keys, cur)
    ensures cur == map k | k in ref :: if MergeTarget(first, last, k) then MergedAt(ref[k], first, last, k) else ref[k]
  {
  }

  /** One more cell visited: the edge sums grow by its extent exactly when it lies on the edge. */
  lemma EdgeStep(g: GrammarMap, first: Coordinate, last: Coordinate, done: set<Coordinate>, k: Coordinate, horizontal: bool)
    requires |first| >= 1 && |last| >= 1 && k in g && k !in done
    ensures SumExtent(g, VisibleEdge(g, first, last, done + {k}, horizontal), horizontal) ==
      SumExtent(g, VisibleEdge(g, first, last, done, horizontal), horizontal) +
      (if k in VisibleEdge(g, first, last, done + {k}, horizontal) then Extent(g[k], horizontal) else 0.0)
  {
    var before := VisibleEdge(g, first, last, done, horizontal);
    if k in VisibleEdge(g, first, last, done + {k}, horizontal) {
      assert VisibleEdge(g, first, last, done + {k}, horizontal) == before + {k};
      SumExtentAdd(g, before, k, horizontal);
    } else {
      assert VisibleEdge(g, first, last, done + {k}, horizontal) == before;
    }
  }

  /**
   * `MergeCells` adds no cell except the empty key, which it writes exactly
   * when the bottom-right cell is not a visible target.
   */
  lemma MergedKeys(g: GrammarMap, first: Coordinate, last: Coordinate)
    requires |first| >= 1 && |last| >= 1
    ensures Merged(g, first, last).Keys == g.Keys + (if CornerVisible(g, first, last) then {} else {[]})
  {
  }

  /**
   * A merge whose bottom-right cell is not a visible target writes the empty
   * coordinate, which the suggestion refresh after every action cannot take
   * (`full_col` fails on it); a visible corner leaves no empty key behind.
   */
  lemma MergedEmptyKey(g: GrammarMap, first: Coordinate, last: Coordinate)
    requires |first| >= 1 && |last| >= 1 && NoEmptyKey(g)
    ensures NoEmptyKey(Merged(g, first, last)) <==> CornerVisible(g, first, last)
  {
    MergedKeys(g, first, last);
  }

  /**
   * After a merge every target but the bottom-right one is hidden, all of
   * them span the selection, and cells outside the selection are untouched.
   */
  lemma MergedCells(g: GrammarMap, first: Coordinate, last: Coordinate, k: Coordinate)
    requires |first| >= 1 && |last| >= 1 && k in g && k != []
    ensures var m := Merged(g, first, last);
      && (MergeTarget(first, last, k) ==>
            m[k].kind == Input("") && m[k].name == g[k].name &&
            m[k].style.colSpan == (ColIndex(first), ColIndex(last)) &&
            m[k].style.rowSpan == (RowIndex(first), RowIndex(last)) &&
            (m[k].style.display <==> k == last && g[k].style.display))
      && (!MergeTarget(first, last, k) ==> m[k] == g[k])
  {
    MergedAtKey(g, first, last, k);
    if MergeTarget(first, last, k) {
      if Last(k) == Last(last) {
        CornerIsLast(first, last, k);
      }
      if k == last {
        CornerFields(g, first, last, g[last]);
      }
    }
  }

  /** The grammar written at the corner keeps the base's name and visibility, and spans the selection. */
  lemma CornerFields(g: GrammarMap, first: Coordinate, last: Coordinate, base: Grammar)
    requires |first| >= 1 && |last| >= 1
    ensures var r := Corner(g, first, last, base);
      r.kind == Input("") && r.name == base.name &&
      r.style.colSpan == (ColIndex(first), ColIndex(last)) &&
      r.style.rowSpan == (RowIndex(first), RowIndex(last)) &&
      r.style.display == base.style.display
  {
  }

  /** The visible bottom-right cell is the only visible cell on either edge once merged. */
  lemma MergedEdge(g: GrammarMap, first: Coordinate, last: Coordinate, horizontal: bool)
    requires |first| >= 1 && |last| >= 1 && CornerVisible(g, first, last)
    ensures var m := Merged(g, first, last);
      VisibleEdge(m, first, last, m.Keys, horizontal) == {last}
  {
    var m := Merged(g, first, last);
    forall k | k in VisibleEdge(m, first, last, m.Keys, horizontal) ensures k == last {
      MergedCells(g, first, last, k);
    }
  }

  /** Merging a selection whose bottom-right cell is visible a second time changes nothing. */
  lemma {:induction false} MergeIdempotent(g: GrammarMap, first: Coordinate, last: Coordinate)
    requires |first| >= 1 && |last| >= 1 && CornerVisible(g, first, last)
    ensures Merged(Merged(g, first, last), first, last) == Merged(g, first, last)
  {
    var m := Merged(g, first, last);
    var mm := Merged(m, first, last);
    assert mm.Keys == m.Keys by {
      MergedKeys(g, first, last);
      MergedStaysVisible(g, first, last);
      MergedKeys(m, first, last);
    }
    forall k | k in m ensures mm[k] == m[k] {
      MergedKeys(g, first, last);
      MergeIdempotentAt(g, first, last, k);
    }
    SameMap(mm, m);
  }

  /** Two maps with the same keys and the same value at each key are equal. */
  lemma SameMap<K, V>(a: map<K, V>, b: map<K, V>)
    requires a.Keys == b.Keys && forall k :: k in a ==> a[k] == b[k]
    ensures a == b
  {
  }

  lemma MergedStaysVisible(g: GrammarMap, first: Coordinate, last: Coordinate)
    requires |first| >= 1 && |last| >= 1 && CornerVisible(g, first, last)
    ensures CornerVisible(Merged(g, first, last), first, last)
  {
    MergedKeys(g, first, last);
    MergedAtKey(g, first, last, last);
  }

  lemma MergeIdempotentAt(g: GrammarMap, first: Coordinate, last: Coordinate, k: Coordinate)
    requires |first| >= 1 && |last| >= 1 && CornerVisible(g, first, last) && k in g
    ensures Merged(Merged(g, first, last), first, last)[k] == Merged(g, first, last)[k]
  {
    var m := Merged(g, first, last);
    MergedKeys(g, first, last);
    MergedStaysVisible(g, first, last);
    MergedAtKey(g, first, last, k);
    MergedAtKey(m, first, last, k);
    if k == last {
      MergedCornerSums(g, first, last);
    } else if MergeTarget(first, last, k) {
      MergedCells(g, first, last, k);
    }
  }

  /** Once merged, the sums over the edges are the bottom-right cell's own width and height. */
  lemma MergedCornerSums(g: GrammarMap, first: Coordinate, last: Coordinate)
    requires |first| >= 1 && |last| >= 1 && CornerVisible(g, first, last)
    ensures var m := Merged(g, first, last);
      last in m &&
      SumExtent(m, VisibleEdge(m, first, last, m.Keys, true), true) == m[last].style.width &&
      SumExtent(m, VisibleEdge(m, first, last, m.Keys, false), false) == m[last].style.height
  {
    var m := Merged(g, first, last);
    MergedKeys(g, first, last);
    MergedEdge(g, first, last, true);
    MergedEdge(g, first, last, false);
    SumExtentAdd(m, {}, last, true);
    SumExtentAdd(m, {}, last, false);
    assert {} + {last} == {last};
  }

  // ---------------------------------------------------------------------------
  // `AddNestedGrid`.

  /** Default cells written at `coord`'s children for the listed pairs, in order. */
  function WithDefaults(g: GrammarMap, coord: Coordinate, cells: seq<RowCol>): GrammarMap {
    if cells == [] then g
    else WithDefaults(g, coord, cells[..|cells| - 1])[ChildOf(coord, cells[|cells| - 1]) := DefaultGrammar()]
  }

  /** `k` is the child of `coord` at one of the listed pairs. */
  predicate NewChild(coord: Coordinate, cells: seq<RowCol>, k: Coordinate) {
    |k| == |coord| + 1 && k[..|coord|] == coord && Last(k) in cells
  }

  /** After the writes, the listed children hold default cells and every other cell is as it was. */
  lemma {:induction false} WithDefaultsSpec(g: GrammarMap, coord: Coordinate, cells: seq<RowCol>, k: Coordinate)
    ensures k in WithDefaults(g, coord, cells) <==> k in g || NewChild(coord, cells, k)
    ensures NewChild(coord, cells, k) ==> WithDefaults(g, coord, cells)[k] == DefaultGrammar()
    ensures k in g && !NewChild(coord, cells, k) ==> WithDefaults(g, coord, cells)[k] == g[k]
    decreases |cells|
  {
    if cells != [] {
      var init := cells[..|cells| - 1];
      WithDefaultsSpec(g, coord, init, k);
      assert k == ChildOf(coord, cells[|cells| - 1]) <==> |k| == |coord| + 1 && k[..|coord|] == coord && Last(k) == cells[|cells| - 1];
      assert |k| > 0 ==> (Last(k) in cells <==> Last(k) in init || Last(k) == cells[|cells| - 1]) by {
        assert cells == init + [cells[|cells| - 1]];
      }
    }
  }

  /** The new grid keeps the spans of the cell it replaces when that cell was merged. */
  function SpannedLike(grid: Grammar, current: Style): (r: Grammar)
    ensures r.name == grid.name && r.kind == grid.kind
    ensures current.rowSpan.0 != 0 || current.colSpan.0 != 0 ==>
      r.style == grid.style.(rowSpan := current.rowSpan, colSpan := current.colSpan)
    ensures current.rowSpan.0 == 0 && current.colSpan.0 == 0 ==> r == grid
  {
    if current.rowSpan.0 != 0 || current.colSpan.0 != 0
    then grid.(style := grid.style.(rowSpan := current.rowSpan, colSpan := current.colSpan))
    else grid
  }

  /**
   * `AddNestedGrid` on the map: default cells for the new grid, the parent's
   * kind replaced by the new grid's own cell list, and the grid itself at `coord`.
   */
  function NestedGrid(g: GrammarMap, coord: Coordinate, rows: Pos, cols: Pos, current: Style): GrammarMap {
    var cells := GridCells(rows, cols);
    var g1 := WithDefaults(g, coord, cells);
    var g2 := if Parent(coord).Some? && Parent(coord).value in g1
      then g1[Parent(coord).value := g1[Parent(coord).value].(kind := Kind.Grid(cells))]
      else g1;
    g2[coord := SpannedLike(Grammar("", DefaultStyle(), Kind.Grid(cells)), current)]
  }

  /**
   * The new grid is complete: it lists every (row, column) pair of its size,
   * each of its cells is a fresh default cell, and the first of them exists.
   */
  lemma {:induction false} NestedGridComplete(g: GrammarMap, coord: Coordinate, rows: Pos, cols: Pos, current: Style)
    ensures var r := NestedGrid(g, coord, rows, cols, current);
      && coord in r && r[coord].kind == Kind.Grid(GridCells(rows, cols))
      && (forall p: RowCol :: p.0 <= rows && p.1 <= cols ==>
            ChildOf(coord, p) in r && r[ChildOf(coord, p)] == DefaultGrammar())
      && ChildOf(coord, (1, 1)) in r
  {
    GridCellsSpec(rows, cols);
    var cells := GridCells(rows, cols);
    forall p: RowCol | p.0 <= rows && p.1 <= cols
      ensures ChildOf(coord, p) != coord && Parent(coord) != Some(ChildOf(coord, p))
      ensures ChildOf(coord, p) in WithDefaults(g, coord, cells)
      ensures WithDefaults(g, coord, cells)[ChildOf(coord, p)] == DefaultGrammar()
    {
      WithDefaultsSpec(g, coord, cells, ChildOf(coord, p));
    }
  }

  /**
   * Besides the new grid, its cells and its parent, nothing changes, and
   * only the new grid and its cells are added.
   */
  lemma NestedGridFrame(g: GrammarMap, coord: Coordinate, rows: Pos, cols: Pos, current: Style, k: Coordinate)
    requires k != coord && Parent(coord) != Some(k)
    requires !(|k| == |coord| + 1 && k[..|coord|] == coord)
    ensures k in NestedGrid(g, coord, rows, cols, current) <==> k in g
    ensures k in g ==> NestedGrid(g, coord, rows, cols, current)[k] == g[k]
  {
    WithDefaultsSpec(g, coord, GridCells(rows, cols), k);
  }

  /** The loop that writes a default cell for each pair of the new grid. */
  method InsertDefaults(g: GrammarMap, coord: Coordinate, cells: seq<RowCol>) returns (r: GrammarMap)
    ensures r == WithDefaults(g, coord, cells)
  {
    r := g;
    for i := 0 to |cells|
      invariant r == WithDefaults(g, coord, cells[..i])
    {
      assert cells[..i + 1][..i] == cells[..i];
      r := r[ChildOf(coord, cells[i]) := DefaultGrammar()];
    }
    assert cells[..|cells|] == cells;
  }

  /** The map part of `AddNestedGrid`, with the replaced cell's style `current`. */
  method NestedGridMap(g: GrammarMap, coord: Coordinate, rows: Pos, cols: Pos, current: Style) returns (r: GrammarMap)
    ensures r == NestedGrid(g, coord, rows, cols, current)
  {
    var grammar := AsGrid(rows, cols);
    r := InsertDefaults(g, coord, grammar.kind.subs);
    var parent := Parent(coord);
    if parent.Some? && parent.value in r {
      r := r[parent.value := r[parent.value].(kind := grammar.kind)];
    }
    r := r[coord := SpannedLike(grammar, current)];
  }

  // ---------------------------------------------------------------------------
  // `InsertRow` (`down`) and `InsertCol` (not `down`).

  /** The next cell below (`down`) or to the right. */
  function Next(c: Coordinate, down: bool): (n: Coordinate)
    requires |c| >= 1
    ensures n == if down then NeighborBelow(c).value else NeighborRight(c).value
  {
    if down then WithLast(c, (RowIndex(c) + 1, ColIndex(c))) else WithLast(c, (RowIndex(c), ColIndex(c) + 1))
  }

  /** A sibling of `c` in the same column (`down`) or row, and further along it. */
  predicate Ahead(c: Coordinate, down: bool, k: Coordinate)
    requires |c| >= 1
  {
    |k| == |c| && k[..|c| - 1] == c[..|c| - 1] &&
    if down then ColIndex(k) == ColIndex(c) && RowIndex(k) > RowIndex(c)
    else RowIndex(k) == RowIndex(c) && ColIndex(k) > ColIndex(c)
  }

  function AheadIn(g: GrammarMap, c: Coordinate, down: bool): set<Coordinate>
    requires |c| >= 1
  {
    set k | k in g && Ahead(c, down, k)
  }

  /** The source's walk: follow `neighbor_below` (or `neighbor_right`) while the map has the cell. */
  function Extreme(g: GrammarMap, c: Coordinate, down: bool): (e: Coordinate)
    requires |c| >= 1
    ensures |e| == |c|
    decreases AheadIn(g, c, down)
  {
    var n := Next(c, down);
    if n in g then
      assert AheadIn(g, n, down) < AheadIn(g, c, down) by {
        assert n in AheadIn(g, c, down) && n !in AheadIn(g, n, down);
      }
      Extreme(g, n, down)
    else c
  }

  /** The index along the walk's direction. */
  function Along(c: Coordinate, down: bool): Pos
    requires |c| >= 1
  {
    if down then RowIndex(c) else ColIndex(c)
  }

  /** `c` moved to index `i` along the walk's direction. */
  function At(c: Coordinate, down: bool, i: Pos): Coordinate
    requires |c| >= 1
  {
    if down then WithLast(c, (i, ColIndex(c))) else WithLast(c, (RowIndex(c), i))
  }

  /**
   * The walk ends at the first cell whose successor is missing: a sibling of
   * the start on the same line, no earlier, with every cell in between present.
   */
  lemma {:induction false} ExtremeSpec(g: GrammarMap, c: Coordinate, down: bool)
    requires |c| >= 1
    ensures var e := Extreme(g, c, down);
      && |e| == |c| && e[..|c| - 1] == c[..|c| - 1]
      && Along(e, down) >= Along(c, down)
      && e == At(c, down, Along(e, down))
      && Next(e, down) !in g
      && (forall i: Pos :: Along(c, down) < i <= Along(e, down) ==> At(c, down, i) in g)
    decreases AheadIn(g, c, down)
  {
    var n := Next(c, down);
    if n in g {
      assert AheadIn(g, n, down) < AheadIn(g, c, down) by {
        assert n in AheadIn(g, c, down) && n !in AheadIn(g, n, down);
      }
      ExtremeSpec(g, n, down);
      var e := Extreme(g, c, down);
      assert e == Extreme(g, n, down);
      NextSibling(c, down);
      forall i: Pos | Along(c, down) < i <= Along(e, down) ensures At(c, down, i) in g {
        if i == Along(n, down) {
          assert At(c, down, i) == n;
        }
      }
    }
  }

  /** The successor is the start moved one step along the line. */
  lemma NextSibling(c: Coordinate, down: bool)
    requires |c| >= 1
    ensures var n := Next(c, down);
      && n[..|c| - 1] == c[..|c| - 1] && Along(n, down) == Along(c, down) + 1
      && n == At(c, down, Along(n, down))
      && forall i: Pos :: At(n, down, i) == At(c, down, i)
  {
  }

  /** The source's walk as a loop. */
  method FindExtreme(g: GrammarMap, c: Coordinate, down: bool) returns (e: Coordinate)
    requires |c| >= 1
    ensures e == Extreme(g, c, down)
  {
    e := c;
    while true
      invariant |e| == |c| && Extreme(g, e, down) == Extreme(g, c, down)
      decreases AheadIn(g, e, down)
    {
      var n := if down then NeighborBelow(e) else NeighborRight(e);
      if n.Some? && n.value in g {
        assert AheadIn(g, n.value, down) < AheadIn(g, e, down) by {
          assert n.value in AheadIn(g, e, down) && n.value !in AheadIn(g, n.value, down);
        }
        e := n.value;
      } else {
        break;
      }
    }
  }

  /** The pairs of the new line: each cell of the last line, shifted one step along. */
  function NewPairs(g: GrammarMap, e: Coordinate, down: bool): set<RowCol>
    requires |e| >= 2 && NoEmptyKey(g)
  {
    if down then set k | k in QueryRow(g, FullRow(e)) :: (RowIndex(k) + 1, ColIndex(k))
    else set k | k in QueryCol(g, FullCol(e)) :: (RowIndex(k), ColIndex(k) + 1)
  }

  /** `k` is the child of `p` at one of the new pairs. */
  predicate ChildAt(p: Coordinate, pairs: set<RowCol>, k: Coordinate) {
    |k| == |p| + 1 && k[..|p|] == p && Last(k) in pairs
  }

  /** `tail` lists every pair of `pairs` exactly once. */
  ghost predicate Lists(tail: seq<RowCol>, pairs: set<RowCol>) {
    (forall i, j :: 0 <= i < j < |tail| ==> tail[i] != tail[j]) &&
    (forall x :: x in tail <==> x in pairs)
  }

  /**
   * The new map after inserting a line into grid `p`: when `p` is a grid, a
   * default cell at each new pair and `p`'s cell list extended by every new
   * pair once; otherwise no change.
   */
  ghost predicate LineInserted(g: GrammarMap, p: Coordinate, pairs: set<RowCol>, r: GrammarMap) {
    if p in g && g[p].kind.Grid? then
      var subs := g[p].kind.subs;
      && (forall k :: k in r <==> k in g || ChildAt(p, pairs, k))
      && (forall k :: k in r && k != p ==> r[k] == if ChildAt(p, pairs, k) then DefaultGrammar() else g[k])
      && r[p].name == g[p].name && r[p].style == g[p].style && r[p].kind.Grid?
      && |r[p].kind.subs| >= |subs| && r[p].kind.subs[..|subs|] == subs
      && Lists(r[p].kind.subs[|subs|..], pairs)
    else r == g
  }

  lemma ListsAdd(tail: seq<RowCol>, done: set<RowCol>, c: RowCol)
    requires Lists(tail, done) && c !in done
    ensures Lists(tail + [c], done + {c})
  {
    var t := tail + [c];
    forall i, j | 0 <= i < j < |t| ensures t[i] != t[j] {
      if j == |tail| {
        assert t[i] == tail[i] && tail[i] in done;
      } else {
        assert t[i] == tail[i] && t[j] == tail[j];
      }
    }
  }

  /** Visiting one more element of a set moves it from the remaining ones to the visited ones. */
  lemma VisitOne<T>(all: set<T>, remaining: set<T>, x: T)
    requires x in remaining && remaining <= all
    ensures all - (remaining - {x}) == (all - remaining) + {x}
  {
  }

  /** The loop adding one default cell and one listed pair per new pair. */
  method AddChildren(g: GrammarMap, p: Coordinate, pairs: set<RowCol>) returns (r: GrammarMap, tail: seq<RowCol>)
    ensures r == WithDefaults(g, p, tail) && Lists(tail, pairs)
  {
    r, tail := g, [];
    var remaining := pairs;
    while remaining != {}
      invariant remaining <= pairs
      invariant r == WithDefaults(g, p, tail) && Lists(tail, pairs - remaining)
      decreases remaining
    {
      var c :| c in remaining;
      ghost var done := pairs - remaining;
      ListsAdd(tail, done, c);
      WithDefaultsSnoc(g, p, tail, c);
      r := r[ChildOf(p, c) := DefaultGrammar()];
      tail := tail + [c];
      VisitOne(pairs, remaining, c);
      remaining := remaining - {c};
    }
  }

  lemma WithDefaultsSnoc(g: GrammarMap, p: Coordinate, cells: seq<RowCol>, c: RowCol)
    ensures WithDefaults(g, p, cells + [c]) == WithDefaults(g, p, cells)[ChildOf(p, c) := DefaultGrammar()]
  {
    assert (cells + [c])[..|cells|] == cells;
  }

  /** `InsertRow` / `InsertCol` from active cell `coord`. */
  method InsertLine(g: GrammarMap, coord: Coordinate, down: bool) returns (r: GrammarMap)
    requires |coord| >= 2 && NoEmptyKey(g)
    ensures LineInserted(g, coord[..|coord| - 1], NewPairs(g, Extreme(g, coord, down), down), r)
  {
    var e := FindExtreme(g, coord, down);
    var pairs := NewPairs(g, e, down);
    var parent := Parent(coord).value;
    r := g;
    if parent in g && g[parent].kind.Grid? {
      var subs := g[parent].kind.subs;
      var d, tail := AddChildren(g, parent, pairs);
      r := d[parent := g[parent].(kind := Kind.Grid(subs + tail))];
      ExtendedGrid(g, parent, pairs, tail);
    }
  }

  lemma ExtendedGrid(g: GrammarMap, p: Coordinate, pairs: set<RowCol>, tail: seq<RowCol>)
    requires p in g && g[p].kind.Grid? && Lists(tail, pairs)
    ensures LineInserted(g, p, pairs, WithDefaults(g, p, tail)[p := g[p].(kind := Kind.Grid(g[p].kind.subs + tail))])
  {
    var subs := g[p].kind.subs;
    var d := WithDefaults(g, p, tail);
    assert (subs + tail)[..|subs|] == subs && (subs + tail)[|subs|..] == tail;
    forall k ensures (k in d <==> k in g || ChildAt(p, pairs, k))
      && (k in d ==> d[k] == if ChildAt(p, pairs, k) then DefaultGrammar() else g[k])
    {
      WithDefaultsSpec(g, p, tail, k);
      assert NewChild(p, tail, k) <==> ChildAt(p, pairs, k);
    }
  }

  /** The cells of grid `p` in the map are those of a `rows` by `cols` grid. */
  ghost predicate FullGrid(g: GrammarMap, p: Coordinate, rows: nat, cols: nat) {
    forall x: RowCol :: ChildOf(p, x) in g <==> x.0 <= rows && x.1 <= cols
  }

  lemma ChildOfLast(p: Coordinate, k: Coordinate)
    requires |k| == |p| + 1 && k[..|p|] == p
    ensures k == ChildOf(p, Last(k))
  {
  }

  /** In a full grid the walk stops on the last row (`down`) or the last column. */
  lemma ExtremeOfFullGrid(g: GrammarMap, coord: Coordinate, rows: Pos, cols: Pos, down: bool)
    requires |coord| >= 2 && coord in g && FullGrid(g, coord[..|coord| - 1], rows, cols)
    ensures Extreme(g, coord, down) == At(coord, down, if down then rows else cols)
  {
    var p := coord[..|coord| - 1];
    ExtremeSpec(g, coord, down);
    var e := Extreme(g, coord, down);
    ChildOfLast(p, coord);
    ChildOfLast(p, e);
    ChildOfLast(p, Next(e, down));
    assert e in g by {
      if Along(e, down) > Along(coord, down) {
        assert At(coord, down, Along(e, down)) in g;
      }
    }
  }

  /** The pair of a new cell after the last row (`down`) or the last column of a `rows` by `cols` grid. */
  predicate OnNewLine(x: RowCol, rows: nat, cols: nat, down: bool) {
    if down then x.0 == rows + 1 && x.1 <= cols else x.1 == cols + 1 && x.0 <= rows
  }

  /** On a full grid the new pairs are those of one whole new row (column). */
  lemma NewPairsOfFullGrid(g: GrammarMap, coord: Coordinate, rows: Pos, cols: Pos, down: bool)
    requires |coord| >= 2 && coord in g && NoEmptyKey(g)
    requires FullGrid(g, coord[..|coord| - 1], rows, cols)
    ensures forall x: RowCol :: x in NewPairs(g, Extreme(g, coord, down), down) <==> OnNewLine(x, rows, cols, down)
  {
    ExtremeOfFullGrid(g, coord, rows, cols, down);
    var e := Extreme(g, coord, down);
    forall x: RowCol | x in NewPairs(g, e, down) ensures OnNewLine(x, rows, cols, down) {
      NewPairsOnNewLine(g, coord[..|coord| - 1], e, rows, cols, down, x);
    }
    forall x: RowCol | OnNewLine(x, rows, cols, down) ensures x in NewPairs(g, e, down) {
      NewLineInNewPairs(g, coord[..|coord| - 1], e, rows, cols, down, x);
    }
  }

  lemma NewPairsOnNewLine(g: GrammarMap, p: Coordinate, e: Coordinate, rows: Pos, cols: Pos, down: bool, x: RowCol)
    requires |p| >= 1 && |e| == |p| + 1 && e[..|p|] == p && NoEmptyKey(g) && FullGrid(g, p, rows, cols)
    requires if down then RowIndex(e) == rows else ColIndex(e) == cols
    requires x in NewPairs(g, e, down)
    ensures OnNewLine(x, rows, cols, down)
  {
    if down {
      NewRowPairOnNewLine(g, p, e, rows, cols, x);
    } else {
      NewColPairOnNewLine(g, p, e, rows, cols, x);
    }
  }

  lemma NewRowPairOnNewLine(g: GrammarMap, p: Coordinate, e: Coordinate, rows: Pos, cols: Pos, x: RowCol)
    requires |p| >= 1 && |e| == |p| + 1 && e[..|p|] == p && NoEmptyKey(g) && FullGrid(g, p, rows, cols)
    requires RowIndex(e) == rows && x in NewPairs(g, e, true)
    ensures x.0 == rows + 1 && x.1 <= cols
  {
    var k :| k in QueryRow(g, FullRow(e)) && x == (RowIndex(k) + 1, ColIndex(k));
    assert k in g && k[..|k| - 1] == p;
    ChildOfLast(p, k);
    assert ChildOf(p, Last(k)) in g;
  }

  lemma NewColPairOnNewLine(g: GrammarMap, p: Coordinate, e: Coordinate, rows: Pos, cols: Pos, x: RowCol)
    requires |p| >= 1 && |e| == |p| + 1 && e[..|p|] == p && NoEmptyKey(g) && FullGrid(g, p, rows, cols)
    requires ColIndex(e) == cols && x in NewPairs(g, e, false)
    ensures x.1 == cols + 1 && x.0 <= rows
  {
    var k :| k in QueryCol(g, FullCol(e)) && x == (RowIndex(k), ColIndex(k) + 1);
    assert k in g && k[..|k| - 1] == p;
    ChildOfLast(p, k);
    assert ChildOf(p, Last(k)) in g;
  }

  lemma NewLineInNewPairs(g: GrammarMap, p: Coordinate, e: Coordinate, rows: Pos, cols: Pos, down: bool, x: RowCol)
    requires |p| >= 1 && |e| == |p| + 1 && e[..|p|] == p && NoEmptyKey(g) && FullGrid(g, p, rows, cols)
    requires if down then RowIndex(e) == rows else ColIndex(e) == cols
    requires OnNewLine(x, rows, cols, down)
    ensures x in NewPairs(g, e, down)
  {
    if down {
      NewRowLineInNewPairs(g, p, e, rows, cols, x);
    } else {
      NewColLineInNewPairs(g, p, e, rows, cols, x);
    }
  }

  lemma NewRowLineInNewPairs(g: GrammarMap, p: Coordinate, e: Coordinate, rows: Pos, cols: Pos, x: RowCol)
    requires |p| >= 1 && |e| == |p| + 1 && e[..|p|] == p && NoEmptyKey(g) && FullGrid(g, p, rows, cols)
    requires RowIndex(e) == rows && x.0 == rows + 1 && x.1 <= cols
    ensures x in NewPairs(g, e, true)
  {
    var k := ChildOf(p, (rows, x.1));
    assert k in g;
    assert e[..|e| - 1] == p && k[..|k| - 1] == p && RowIndex(k) == rows && ColIndex(k) == x.1;
    assert k in QueryRow(g, FullRow(e));
    assert x == (RowIndex(k) + 1, ColIndex(k));
  }

  lemma NewColLineInNewPairs(g: GrammarMap, p: Coordinate, e: Coordinate, rows: Pos, cols: Pos, x: RowCol)
    requires |p| >= 1 && |e| == |p| + 1 && e[..|p|] == p && NoEmptyKey(g) && FullGrid(g, p, rows, cols)
    requires ColIndex(e) == cols && x.1 == cols + 1 && x.0 <= rows
    ensures x in NewPairs(g, e, false)
  {
    var k := ChildOf(p, (x.0, cols));
    assert k in g;
    assert e[..|e| - 1] == p && k[..|k| - 1] == p && RowIndex(k) == x.0 && ColIndex(k) == cols;
    assert k in QueryCol(g, FullCol(e));
    assert x == (RowIndex(k), ColIndex(k) + 1);
  }

  /**
   * `InsertRow` (`InsertCol`) on a full `rows` by `cols` grid adds exactly a
   * row `rows + 1` (a column `cols + 1`), so the grid stays full.
   */
  lemma {:induction false} InsertIntoFullGrid(g: GrammarMap, coord: Coordinate, rows: Pos, cols: Pos, down: bool, r: GrammarMap)
    requires |coord| >= 2 && coord in g && NoEmptyKey(g)
    requires FullGrid(g, coord[..|coord| - 1], rows, cols)
    requires coord[..|coord| - 1] in g && g[coord[..|coord| - 1]].kind.Grid?
    requires LineInserted(g, coord[..|coord| - 1], NewPairs(g, Extreme(g, coord, down), down), r)
    ensures FullGrid(r, coord[..|coord| - 1], if down then rows + 1 else rows, if down then cols else cols + 1)
  {
    var p := coord[..|coord| - 1];
    NewPairsOfFullGrid(g, coord, rows, cols, down);
    var pairs := NewPairs(g, Extreme(g, coord, down), down);
    LineInsertedKeys(g, p, pairs, r);
    FullGridGrows(g, p, pairs, rows, cols, down, r);
  }

  lemma LineInsertedKeys(g: GrammarMap, p: Coordinate, pairs: set<RowCol>, r: GrammarMap)
    requires p in g && g[p].kind.Grid? && LineInserted(g, p, pairs, r)
    ensures forall x: RowCol :: ChildOf(p, x) in r <==> ChildOf(p, x) in g || x in pairs
  {
    forall x: RowCol ensures ChildOf(p, x) in r <==> ChildOf(p, x) in g || x in pairs {
      assert ChildAt(p, pairs, ChildOf(p, x)) <==> x in pairs;
    }
  }

  lemma FullGridGrows(g: GrammarMap, p: Coordinate, pairs: set<RowCol>, rows: Pos, cols: Pos, down: bool, r: GrammarMap)
    requires FullGrid(g, p, rows, cols)
    requires forall x: RowCol :: x in pairs <==> OnNewLine(x, rows, cols, down)
    requires forall x: RowCol :: ChildOf(p, x) in r <==> ChildOf(p, x) in g || x in pairs
    ensures FullGrid(r, p, if down then rows + 1 else rows, if down then cols else cols + 1)
  {
  }

  // ---------------------------------------------------------------------------
  // Definitions in the meta grid (`AddDefinition`, `StageDefinition`,
  // `BindDefinition`).  Each finds the lowest row used in a column of `meta`
  // (A for definitions, B for staged ones), claims the pair one row below it,
  // and copies a grammar there.

  /** Column `col` of the `meta` grid. */
  function MetaCol(col: Pos): Coordinates.Col {
    Coordinates.Col(Meta, col)
  }

  /** The fold's result: 1, raised to the largest row among `ks`. */
  ghost function MaxRow(ks: set<Coordinate>): (m: Pos)
    requires forall k :: k in ks ==> |k| > 0
    decreases ks
  {
    if ks == {} then 1
    else
      var k := Pick(ks);
      var rest := MaxRow(ks - {k});
      if RowIndex(k) > rest then RowIndex(k) else rest
  }

  /** `m` is at least 1 and every row, and is 1 or some row. */
  ghost predicate IsMaxRow(ks: set<Coordinate>, m: Pos)
    requires forall k :: k in ks ==> |k| > 0
  {
    (forall k :: k in ks ==> RowIndex(k) <= m) && (m == 1 || exists k :: k in ks && RowIndex(k) == m)
  }

  lemma {:induction false} MaxRowSpec(ks: set<Coordinate>)
    requires forall k :: k in ks ==> |k| > 0
    ensures IsMaxRow(ks, MaxRow(ks))
    decreases ks
  {
    if ks != {} {
      var k := Pick(ks);
      MaxRowSpec(ks - {k});
    }
  }

  /** The largest row is the only value with the properties of one. */
  lemma MaxRowUnique(ks: set<Coordinate>, m: Pos)
    requires forall k :: k in ks ==> |k| > 0
    requires IsMaxRow(ks, m)
    ensures m == MaxRow(ks)
  {
    MaxRowSpec(ks);
  }

  /** The fold over `query_col(Col(meta, col))`. */
  method MaxQueryRow(g: GrammarMap, col: Pos) returns (m: Pos)
    requires NoEmptyKey(g)
    ensures m == MaxRow(QueryCol(g, MetaCol(col)))
  {
    var ks := QueryCol(g, MetaCol(col));
    m := 1;
    var remaining := ks;
    while remaining != {}
      invariant remaining <= ks
      invariant IsMaxRow(ks - remaining, m)
      decreases remaining
    {
      var c :| c in remaining;
      if ColIndex(c) == col && RowIndex(c) > m {
        m := RowIndex(c);
      }
      remaining := remaining - {c};
    }
    assert ks - remaining == ks;
    MaxRowUnique(ks, m);
  }

  /** The pair of `meta` a new definition in column `col` takes. */
  ghost function DefnSlot(g: GrammarMap, col: Pos): RowCol
    requires NoEmptyKey(g)
  {
    (MaxRow(QueryCol(g, MetaCol(col))) + 1, col)
  }

  /** The claimed coordinate is below every cell of that column, so it is never in use. */
  lemma FreshDefnSlot(g: GrammarMap, col: Pos)
    requires NoEmptyKey(g)
    ensures ChildOf(Meta, DefnSlot(g, col)) !in g
  {
    var ks := QueryCol(g, MetaCol(col));
    var k := ChildOf(Meta, DefnSlot(g, col));
    MaxRowSpec(ks);
    assert k in g ==> k in ks;
  }

  /** The slot depends only on which keys are in use. */
  lemma DefnSlotKeys(g: GrammarMap, h: GrammarMap, col: Pos)
    requires NoEmptyKey(g) && g.Keys == h.Keys
    ensures DefnSlot(g, col) == DefnSlot(h, col)
  {
    assert QueryCol(g, MetaCol(col)) == QueryCol(h, MetaCol(col));
  }

  /** The session's `meta` grammar with `slot` appended to its cell list, when it is a grid. */
  function PushSlot(meta: Grammar, slot: RowCol): (r: Grammar)
    ensures r.name == meta.name && r.style == meta.style
    ensures meta.kind.Grid? ==> r.kind == Kind.Grid(meta.kind.subs + [slot])
    ensures !meta.kind.Grid? ==> r == meta
  {
    match meta.kind
    case Grid(subs) => meta.(kind := Kind.Grid(subs + [slot]))
    case _ => meta
  }

  /** The cell at `k`, if there is one, renamed. */
  function Renamed(g: GrammarMap, k: Coordinate, name: string): (r: GrammarMap)
    ensures r.Keys == g.Keys
    ensures forall j :: j in g ==> r[j] == if j == k then g[j].(name := name) else g[j]
  {
    if k in g then g[k := g[k].(name := name)] else g
  }

  /**
   * After the copy: a definition (not a staged one) leaves a default cell
   * behind, and the copy takes the definition's name.
   */
  function Defined(m: GrammarMap, coord: Coordinate, defn: Coordinate, name: string, clear: bool): GrammarMap {
    var cleared := if clear && coord in m then m[coord := DefaultGrammar()] else m;
    Renamed(cleared, defn, name)
  }

  /**
   * The named definition cell holds the source's contents up to size, and a
   * cleared source is exactly a default cell (the clear comes after the copy).
   */
  lemma DefinedCells(g: GrammarMap, coord: Coordinate, defn: Coordinate, name: string, clear: bool, m: GrammarMap)
    requires coord in g && Unrelated(coord, defn) && Moved(g, coord, defn, m)
    ensures var r := Defined(m, coord, defn, name, clear);
      && r.Keys == m.Keys && g.Keys <= r.Keys
      && defn in r && SameUpToSize(r[defn], g[coord].(name := name))
      && coord in r && (clear ==> r[coord] == DefaultGrammar()) && (!clear ==> SameUpToSize(r[coord], g[coord]))
  {
    MovedSourceCell(g, coord, defn, m);
    RenamedUpToSize(m[defn], g[coord], name);
  }

  /** Renaming two grammars that agree up to size keeps them agreeing. */
  lemma RenamedUpToSize(a: Grammar, b: Grammar, name: string)
    requires SameUpToSize(a, b)
    ensures SameUpToSize(a.(name := name), b.(name := name))
  {
    assert Unsized(a.(name := name)) == Unsized(a).(name := name);
    assert Unsized(b.(name := name)) == Unsized(b).(name := name);
  }

  /** `format!("{}::{}", n, b)` under a named parent, else the bare binding name. */
  function BindingName(n: string, b: string): string {
    if n != "" then n + "::" + b else b
  }

  /** Within one parent's namespace, different binding names stay different. */
  lemma BindingNameInjective(n: string, b1: string, b2: string)
    requires BindingName(n, b1) == BindingName(n, b2)
    ensures b1 == b2
  {
    if n != "" {
      var p := n + "::";
      assert BindingName(n, b1) == p + b1 && BindingName(n, b2) == p + b2;
      assert b1 == (p + b1)[|p|..] && b2 == (p + b2)[|p|..];
    }
  }

  /** A named parent's binding name starts with that name and `::`, and ends with the binding. */
  lemma BindingNameParts(n: string, b: string)
    requires n != ""
    ensures var r := BindingName(n, b);
      |r| == |n| + 2 + |b| && r[..|n|] == n && r[|n|..|n| + 2] == "::" && r[|n| + 2..] == b
  {
  }

  /**
   * The map and `meta` grammar after a definition from `coord` into column
   * `col`: `meta` lists the claimed pair, and the map is the copy with the
   * follow-up edits of `Defined`.
   */
  ghost predicate DefinitionAdded(g: GrammarMap, meta: Grammar, coord: Coordinate, name: string, col: Pos, clear: bool,
                                  r: GrammarMap, meta': Grammar)
    requires NoEmptyKey(g)
  {
    var defn := ChildOf(Meta, DefnSlot(g, col));
    meta' == PushSlot(meta, DefnSlot(g, col)) &&
    exists m :: Moved(g, coord, defn, m) && r == Defined(m, coord, defn, name, clear)
  }

  /** The pair one row below the lowest cell of column `col` of `meta`. */
  method NextSlot(g: GrammarMap, col: Pos) returns (slot: RowCol)
    requires NoEmptyKey(g)
    ensures slot == DefnSlot(g, col)
  {
    var maxQueryRow := MaxQueryRow(g, col);
    slot := NonZeroTuple((maxQueryRow + 1, col));
  }

  /** The shared body of `AddDefinition` and `StageDefinition`. */
  method Define(g: GrammarMap, meta: Grammar, coord: Coordinate, name: string, col: Pos, clear: bool)
    returns (r: GrammarMap, meta': Grammar)
    requires NoEmptyKey(g)
    requires coord in g ==> Unrelated(coord, ChildOf(Meta, DefnSlot(g, col)))
    ensures DefinitionAdded(g, meta, coord, name, col, clear, r, meta')
  {
    var slot := NextSlot(g, col);
    meta' := PushSlot(meta, slot);
    var defn := ChildOf(Meta, slot);
    var moved := MoveMap(g, coord, defn);
    r := FinishDefinition(moved, coord, defn, name, clear);
  }

  /** Clearing the source (unless staging) and naming the copy. */
  method FinishDefinition(m: GrammarMap, coord: Coordinate, defn: Coordinate, name: string, clear: bool)
    returns (r: GrammarMap)
    ensures r == Defined(m, coord, defn, name, clear)
  {
    r := m;
    if clear && coord in r {
      r := r[coord := DefaultGrammar()];
    }
    r := RenameCell(r, defn, name);
  }

  /** `if let Some(g) = grammars.get_mut(&k) { g.name = name }`. */
  method RenameCell(g: GrammarMap, k: Coordinate, name: string) returns (r: GrammarMap)
    ensures r == Renamed(g, k, name)
  {
    r := g;
    if k in r {
      r := r[k := r[k].(name := name)];
    }
  }

  /** The result of binding: both cells renamed, the binding copied into column A of `meta`. */
  ghost predicate Bound(g: GrammarMap, meta: Grammar, defnCoord: Coordinate, bindingCoord: Coordinate, bindingName: string,
                        r: GrammarMap, meta': Grammar)
    requires |defnCoord| != 1 && NoEmptyKey(g) && Parent(defnCoord).value in g
  {
    var full := BindingName(g[Parent(defnCoord).value].name, bindingName);
    var renamed := Renamed(Renamed(g, defnCoord, full), bindingCoord, full);
    meta' == PushSlot(meta, DefnSlot(g, 1)) && Moved(renamed, bindingCoord, ChildOf(Meta, DefnSlot(g, 1)), r)
  }

  method Bind(g: GrammarMap, meta: Grammar, defnCoord: Coordinate, bindingCoord: Coordinate, bindingName: string)
    returns (ok: bool, r: GrammarMap, meta': Grammar)
    requires |defnCoord| != 1 && NoEmptyKey(g)
    requires Parent(defnCoord).value in g && bindingCoord in g ==> Unrelated(bindingCoord, ChildOf(Meta, DefnSlot(g, 1)))
    ensures ok <==> Parent(defnCoord).value in g
    ensures ok ==> Bound(g, meta, defnCoord, bindingCoord, bindingName, r, meta')
  {
    var parent := Parent(defnCoord).value;
    if parent !in g {
      return false, g, meta;
    }
    var full := BindingName(g[parent].name, bindingName);
    var renamed := RenameCell(g, defnCoord, full);
    renamed := RenameCell(renamed, bindingCoord, full);
    DefnSlotKeys(g, renamed, 1);
    var slot := NextSlot(renamed, 1);
    meta' := PushSlot(meta, slot);
    r := MoveMap(renamed, bindingCoord, ChildOf(Meta, slot));
    return true, r, meta';
  }

  /**
   * A definition lands on a coordinate that was free: it then holds the
   * source's cell under the new name, nothing is removed, and a cleared
   * source is a default cell.
   */
  lemma DefinitionAddedCells(g: GrammarMap, meta: Grammar, coord: Coordinate, name: string, col: Pos, clear: bool,
                             r: GrammarMap, meta': Grammar)
    requires NoEmptyKey(g) && coord in g && Unrelated(coord, ChildOf(Meta, DefnSlot(g, col)))
    requires DefinitionAdded(g, meta, coord, name, col, clear, r, meta')
    ensures var defn := ChildOf(Meta, DefnSlot(g, col));
      && defn !in g && defn in r && SameUpToSize(r[defn], g[coord].(name := name))
      && g.Keys <= r.Keys && coord in r
      && (clear ==> r[coord] == DefaultGrammar()) && (!clear ==> SameUpToSize(r[coord], g[coord]))
  {
    var defn := ChildOf(Meta, DefnSlot(g, col));
    FreshDefnSlot(g, col);
    var m :| Moved(g, coord, defn, m) && r == Defined(m, coord, defn, name, clear);
    DefinedCells(g, coord, defn, name, clear, m);
  }

  /**
   * Binding names the binding cell `parent::binding`, and its copy in
   * column A of `meta`, on a coordinate that was free, holds it under that name.
   */
  lemma BoundCells(g: GrammarMap, meta: Grammar, defnCoord: Coordinate, bindingCoord: Coordinate, bindingName: string,
                   r: GrammarMap, meta': Grammar)
    requires |defnCoord| != 1 && NoEmptyKey(g) && Parent(defnCoord).value in g && bindingCoord in g
    requires Unrelated(bindingCoord, ChildOf(Meta, DefnSlot(g, 1)))
    requires Bound(g, meta, defnCoord, bindingCoord, bindingName, r, meta')
    ensures var full := BindingName(g[Parent(defnCoord).value].name, bindingName);
      var copy := ChildOf(Meta, DefnSlot(g, 1));
      && copy !in g && copy in r && SameUpToSize(r[copy], g[bindingCoord].(name := full))
      && bindingCoord in r && SameUpToSize(r[bindingCoord], g[bindingCoord].(name := full))
      && g.Keys <= r.Keys
  {
    var full := BindingName(g[Parent(defnCoord).value].name, bindingName);
    var renamed := Renamed(Renamed(g, defnCoord, full), bindingCoord, full);
    var copy := ChildOf(Meta, DefnSlot(g, 1));
    FreshDefnSlot(g, 1);
    RenamedTwice(g, defnCoord, bindingCoord, full);
    MovedSourceCell(renamed, bindingCoord, copy, r);
  }

  lemma RenamedTwice(g: GrammarMap, a: Coordinate, b: Coordinate, name: string)
    requires b in g
    ensures var r := Renamed(Renamed(g, a, name), b, name);
      r.Keys == g.Keys && r[b] == g[b].(name := name)
  {
  }

  // ---------------------------------------------------------------------------
  // `Recreate`: the starting sheet, built by three `build_grammar_map` calls.

  /** A 3 x 3 grid of inputs holding their own names `A1` .. `C3`. */
  function RootTable(): seq<EntryRow> {
    [EntryRow([G(InputGrammar("", "A1")), G(InputGrammar("", "B1")), G(InputGrammar("", "C1"))]),
     EntryRow([G(InputGrammar("", "A2")), G(InputGrammar("", "B2")), G(InputGrammar("", "C2"))]),
     EntryRow([G(InputGrammar("", "A3")), G(InputGrammar("", "B3")), G(InputGrammar("", "C3"))])]
  }

  /** The meta column: two inputs, then a button, a slider and a toggle. */
  function MetaTable(): seq<EntryRow> {
    [EntryRow([G(InputGrammar("", "A1"))]),
     EntryRow([G(InputGrammar("", "A2"))]),
     EntryRow([G(DefaultButton())]),
     EntryRow([G(DefaultSlider())]),
     EntryRow([G(DefaultToggle())])]
  }

  /** The "Define Grammar" form: a label and a name input above a 2 x 2 grid of rule inputs. */
  function DefnTable(): seq<EntryRow> {
    [EntryRow([G(Grammar("defn_label", DefaultStyle().(fontWeight := 600), Text("Define Grammar"))),
               G(Grammar("defn_name", DefaultStyle(), Input("")))]),
     EntryRow([MapEntry.Grid([EntryRow([G(InputGrammar("rule_name", "")), G(InputGrammar("rule_grammar", ""))]),
                              EntryRow([G(InputGrammar("rule_name", "")), G(InputGrammar("rule_grammar", ""))])])])]
  }

  /** `meta-A6`, where the form is built. */
  const DefnForm: Coordinate := [(1, 2), (6, 1)]

  /** The three builds, one after the other, starting from an empty map. */
  function BuildSheet(rootTable: seq<EntryRow>, metaTable: seq<EntryRow>, form: seq<EntryRow>): GrammarMap {
    var m1 := Build(map[], Root, MapEntry.Grid(rootTable));
    var m2 := Build(m1, Meta, MapEntry.Grid(metaTable));
    Build(m2, DefnForm, MapEntry.Grid(form))
  }

  function Recreated(): GrammarMap {
    BuildSheet(RootTable(), MetaTable(), DefnTable())
  }

  /** A rectangular table leaves the grid of `as_grid` of its size at its coordinate. */
  lemma BuiltGrid(m: GrammarMap, at: Coordinate, t: seq<EntryRow>, w: nat)
    requires Rectangular(t, w)
    ensures at in Build(m, at, MapEntry.Grid(t)) && Build(m, at, MapEntry.Grid(t))[at].kind == Kind.Grid(GridCells(|t|, w))
  {
    BuildRoot(m, at, MapEntry.Grid(t));
    SubRowsRectangular(t, |t|, w);
  }

  /** The entry at 0-based (i, j), a plain grammar, is what ends up at its child coordinate. */
  lemma BuiltCell(m: GrammarMap, at: Coordinate, t: seq<EntryRow>, i: nat, j: nat)
    requires i < |t| && j < |t[i].entries| && t[i].entries[j].G?
    ensures var c := ChildOf(at, (i + 1, j + 1));
      c in Build(m, at, MapEntry.Grid(t)) && Build(m, at, MapEntry.Grid(t))[c] == t[i].entries[j].grammar
  {
    var c := ChildOf(at, (i + 1, j + 1));
    assert IsPrefix(c, c);
    BuildChild(m, at, t, i, j, c);
    BuildRoot(m, c, t[i].entries[j]);
  }

  /** Later builds at unrelated coordinates leave a key of the first build alone. */
  lemma SheetKeeps(rootTable: seq<EntryRow>, metaTable: seq<EntryRow>, form: seq<EntryRow>, k: Coordinate)
    requires !IsPrefix(DefnForm, k)
    ensures var m1 := Build(map[], Root, MapEntry.Grid(rootTable));
      var m2 := Build(m1, Meta, MapEntry.Grid(metaTable));
      var r := BuildSheet(rootTable, metaTable, form);
      (k in r <==> k in m2) && (k in m2 ==> r[k] == m2[k]) &&
      (!IsPrefix(Meta, k) ==> (k in m2 <==> k in m1) && (k in m1 ==> m2[k] == m1[k]))
  {
    var m1 := Build(map[], Root, MapEntry.Grid(rootTable));
    var m2 := Build(m1, Meta, MapEntry.Grid(metaTable));
    BuildOutside(m1, Meta, MapEntry.Grid(metaTable));
    BuildOutside(m2, DefnForm, MapEntry.Grid(form));
  }

  /** The sheet's shape for any tables of the right sizes. */
  lemma {:induction false} SheetShape(rootTable: seq<EntryRow>, metaTable: seq<EntryRow>, form: seq<EntryRow>)
    requires |rootTable| == 3 && Rectangular(rootTable, 3) && rootTable[1].entries[1].G?
    requires |metaTable| == 5 && Rectangular(metaTable, 1) && metaTable[2].entries[0].G?
    requires SubCoords(form) == [(1, 1), (1, 2), (2, 1)]
    ensures var r := BuildSheet(rootTable, metaTable, form);
      && Root in r && r[Root].kind == Kind.Grid(GridCells(3, 3))
      && [(1, 1), (2, 2)] in r && r[[(1, 1), (2, 2)]] == rootTable[1].entries[1].grammar
      && Meta in r && r[Meta].kind == Kind.Grid(GridCells(5, 1))
      && [(1, 2), (3, 1)] in r && r[[(1, 2), (3, 1)]] == metaTable[2].entries[0].grammar
      && DefnForm in r && r[DefnForm].kind == Kind.Grid([(1, 1), (1, 2), (2, 1)])
  {
    SheetRoot(rootTable, metaTable, form);
    SheetMeta(rootTable, metaTable, form);
    var m1 := Build(map[], Root, MapEntry.Grid(rootTable));
    var m2 := Build(m1, Meta, MapEntry.Grid(metaTable));
    BuildRoot(m2, DefnForm, MapEntry.Grid(form));
  }

  /** The root table's part of the sheet. */
  lemma SheetRoot(rootTable: seq<EntryRow>, metaTable: seq<EntryRow>, form: seq<EntryRow>)
    requires |rootTable| == 3 && Rectangular(rootTable, 3) && rootTable[1].entries[1].G?
    ensures var r := BuildSheet(rootTable, metaTable, form);
      && Root in r && r[Root].kind == Kind.Grid(GridCells(3, 3))
      && [(1, 1), (2, 2)] in r && r[[(1, 1), (2, 2)]] == rootTable[1].entries[1].grammar
  {
    var b := Build(map[], Root, MapEntry.Grid(rootTable));
    assert Root in b && b[Root].kind == Kind.Grid(GridCells(3, 3)) by {
      BuiltGrid(map[], Root, rootTable, 3);
    }
    assert [(1, 1), (2, 2)] in b && b[[(1, 1), (2, 2)]] == rootTable[1].entries[1].grammar by {
      BuiltCell(map[], Root, rootTable, 1, 1);
      assert ChildOf(Root, (2, 2)) == [(1, 1), (2, 2)];
    }
    OutsideForm();
    SheetKeeps(rootTable, metaTable, form, Root);
    SheetKeeps(rootTable, metaTable, form, [(1, 1), (2, 2)]);
  }

  /** The cells the sheet's shape names lie outside the form at `meta-A6`. */
  lemma OutsideForm()
    ensures !IsPrefix(DefnForm, Root) && !IsPrefix(DefnForm, Meta)
    ensures !IsPrefix(DefnForm, [(1, 1), (2, 2)]) && !IsPrefix(DefnForm, [(1, 2), (3, 1)])
  {
    assert [(1, 1), (2, 2)][..2][0] == (1, 1);
    assert [(1, 2), (3, 1)][..2][1] == (3, 1);
  }

  /** The meta table's part of the sheet. */
  lemma SheetMeta(rootTable: seq<EntryRow>, metaTable: seq<EntryRow>, form: seq<EntryRow>)
    requires |metaTable| == 5 && Rectangular(metaTable, 1) && metaTable[2].entries[0].G?
    ensures var r := BuildSheet(rootTable, metaTable, form);
      && Meta in r && r[Meta].kind == Kind.Grid(GridCells(5, 1))
      && [(1, 2), (3, 1)] in r && r[[(1, 2), (3, 1)]] == metaTable[2].entries[0].grammar
  {
    var m1 := Build(map[], Root, MapEntry.Grid(rootTable));
    BuiltGrid(m1, Meta, metaTable, 1);
    BuiltCell(m1, Meta, metaTable, 2, 0);
    assert ChildOf(Meta, (3, 1)) == [(1, 2), (3, 1)];
    OutsideForm();
    SheetKeeps(rootTable, metaTable, form, Meta);
    SheetKeeps(rootTable, metaTable, form, [(1, 2), (3, 1)]);
  }

  /**
   * The recreated sheet has `root` (the source asserts it) as a 3 x 3 grid
   * whose `B2` holds `B2`, `meta` as a 5 x 1 grid whose third cell is the
   * default button, and the form at `meta-A6` as a grid of three cells;
   * `meta`'s own list does not name `A6`.
   */
  lemma RecreatedCells(rootTable: seq<EntryRow>, metaTable: seq<EntryRow>, form: seq<EntryRow>)
    requires rootTable == RootTable() && metaTable == MetaTable() && form == DefnTable()
    ensures var r := BuildSheet(rootTable, metaTable, form);
      && Root in r && r[Root].kind == Kind.Grid(GridCells(3, 3))
      && [(1, 1), (2, 2)] in r && r[[(1, 1), (2, 2)]] == InputGrammar("", "B2")
      && Meta in r && r[Meta].kind == Kind.Grid([(1, 1), (2, 1), (3, 1), (4, 1), (5, 1)])
      && [(1, 2), (3, 1)] in r && r[[(1, 2), (3, 1)]] == DefaultButton()
      && DefnForm in r && r[DefnForm].kind == Kind.Grid([(1, 1), (1, 2), (2, 1)])
      && (6, 1) !in r[Meta].kind.subs
  {
    TablesShaped();
    SheetShape(rootTable, metaTable, form);
    assert (6, 1) !in GridCells(5, 1) by {
      GridCellsSpec(5, 1);
    }
  }

  lemma TablesShaped()
    ensures |RootTable()| == 3 && Rectangular(RootTable(), 3) && RootTable()[1].entries[1] == G(InputGrammar("", "B2"))
    ensures |MetaTable()| == 5 && Rectangular(MetaTable(), 1) && MetaTable()[2].entries[0] == G(DefaultButton())
    ensures SubCoords(DefnTable()) == [(1, 1), (1, 2), (2, 1)]
    ensures GridCells(5, 1) == [(1, 1), (2, 1), (3, 1), (4, 1), (5, 1)]
  {
    var form := DefnTable();
    assert SubRows(form, 1) == [(1, 1), (1, 2)];
    assert SubRows(form, 2) == SubRows(form, 1) + [(2, 1)];
  }

  // ---------------------------------------------------------------------------
  // The suggestion list recomputed after every action that does not return
  // early: a completion for each cell of column `meta-A`, then a binding for
  // each cell of column `meta-B`.

  /** `s` holds one suggestion of the given sort per cell of `ks`, carrying the cell's name. */
  ghost predicate ListedAs(g: GrammarMap, s: seq<Suggestion>, ks: set<Coordinate>, completion: bool) {
    && (forall i :: 0 <= i < |s| ==>
          s[i].Completion? == completion && s[i].coord in ks && s[i].coord in g && s[i].name == g[s[i].coord].name)
    && (forall i, j :: 0 <= i < j < |s| ==> s[i].coord != s[j].coord)
    && (forall k :: k in ks ==> exists i :: 0 <= i < |s| && s[i].coord == k)
  }

  /** The `filter_map` over one column, in the set's iteration order. */
  method ListSuggestions(g: GrammarMap, ks: set<Coordinate>, completion: bool) returns (s: seq<Suggestion>)
    requires ks <= g.Keys
    ensures ListedAs(g, s, ks, completion) && |s| == |ks|
  {
    s := [];
    var remaining := ks;
    while remaining != {}
      invariant remaining <= ks
      invariant ListedAs(g, s, ks - remaining, completion) && |s| + |remaining| == |ks|
      decreases remaining
    {
      var k :| k in remaining;
      ghost var done := ks - remaining;
      VisitOne(ks, remaining, k);
      remaining := remaining - {k};
      if k in g {
        var name := g[k].name;
        ListedAdd(g, s, done, k, completion);
        s := s + [if completion then Completion(name, k) else Binding(name, k)];
      }
    }
    assert ks - remaining == ks;
  }

  lemma ListedAdd(g: GrammarMap, s: seq<Suggestion>, done: set<Coordinate>, k: Coordinate, completion: bool)
    requires ListedAs(g, s, done, completion) && k !in done && k in g
    ensures var x := if completion then Completion(g[k].name, k) else Binding(g[k].name, k);
      ListedAs(g, s + [x], done + {k}, completion)
  {
    var x := if completion then Completion(g[k].name, k) else Binding(g[k].name, k);
    var t := s + [x];
    forall j | j in done + {k} ensures exists i :: 0 <= i < |t| && t[i].coord == j {
      if j == k {
        assert t[|s|].coord == k;
      } else {
        var i :| 0 <= i < |s| && s[i].coord == j;
        assert t[i] == s[i];
      }
    }
  }

  ghost predicate SuggestionsOf(g: GrammarMap, s: seq<Suggestion>)
    requires NoEmptyKey(g)
  {
    var a := QueryCol(g, MetaCol(1));
    |a| <= |s| && ListedAs(g, s[..|a|], a, true) && ListedAs(g, s[|a|..], QueryCol(g, MetaCol(2)), false)
  }

  /** Every suggestion names a cell of `meta-A` (completions) or `meta-B` (bindings), once each. */
  lemma SuggestionsCover(g: GrammarMap, s: seq<Suggestion>, k: Coordinate)
    requires NoEmptyKey(g) && SuggestionsOf(g, s)
    ensures (exists i :: 0 <= i < |s| && s[i] == Completion(g[k].name, k)) <== k in QueryCol(g, MetaCol(1))
    ensures (exists i :: 0 <= i < |s| && s[i] == Binding(g[k].name, k)) <== k in QueryCol(g, MetaCol(2))
    ensures forall i :: 0 <= i < |s| ==> s[i].coord in g && s[i].name == g[s[i].coord].name
  {
    if k in QueryCol(g, MetaCol(1)) {
      CompletionListed(g, s, k);
    }
    if k in QueryCol(g, MetaCol(2)) {
      BindingListed(g, s, k);
    }
    SuggestionsNamed(g, s);
  }

  lemma CompletionListed(g: GrammarMap, s: seq<Suggestion>, k: Coordinate)
    requires NoEmptyKey(g) && SuggestionsOf(g, s) && k in QueryCol(g, MetaCol(1))
    ensures exists i :: 0 <= i < |s| && s[i] == Completion(g[k].name, k)
  {
    var a := QueryCol(g, MetaCol(1));
    ListedAt(g, s[..|a|], a, true, k);
    var i :| 0 <= i < |s[..|a|]| && s[..|a|][i] == Completion(g[k].name, k);
    assert s[i] == s[..|a|][i];
  }

  lemma BindingListed(g: GrammarMap, s: seq<Suggestion>, k: Coordinate)
    requires NoEmptyKey(g) && SuggestionsOf(g, s) && k in QueryCol(g, MetaCol(2))
    ensures exists i :: 0 <= i < |s| && s[i] == Binding(g[k].name, k)
  {
    var a := QueryCol(g, MetaCol(1));
    ListedAt(g, s[|a|..], QueryCol(g, MetaCol(2)), false, k);
    var i :| 0 <= i < |s[|a|..]| && s[|a|..][i] == Binding(g[k].name, k);
    assert s[|a| + i] == s[|a|..][i];
  }

  /** A listed cell has a suggestion of the listing's kind, with its name. */
  lemma ListedAt(g: GrammarMap, s: seq<Suggestion>, ks: set<Coordinate>, completion: bool, k: Coordinate)
    requires ListedAs(g, s, ks, completion) && k in ks
    ensures k in g
    ensures exists i :: 0 <= i < |s| && s[i] == (if completion then Completion(g[k].name, k) else Binding(g[k].name, k))
  {
    var i :| 0 <= i < |s| && s[i].coord == k;
    assert s[i] == (if completion then Completion(g[k].name, k) else Binding(g[k].name, k));
  }

  /** Every suggestion of the two listings names a cell with that cell's name. */
  lemma SuggestionsNamed(g: GrammarMap, s: seq<Suggestion>)
    requires NoEmptyKey(g) && SuggestionsOf(g, s)
    ensures forall i :: 0 <= i < |s| ==> s[i].coord in g && s[i].name == g[s[i].coord].name
  {
    var a := QueryCol(g, MetaCol(1));
    forall i | 0 <= i < |s| ensures s[i].coord in g && s[i].name == g[s[i].coord].name {
      if i < |a| {
        assert s[i] == s[..|a|][i];
      } else {
        assert s[i] == s[|a|..][i - |a|];
      }
    }
  }

  // ---------------------------------------------------------------------------
  // `key_combination`: a keyboard event as `Meta-Ctrl-Alt-Shift-key`.

  datatype KeyEvent = KeyEvent(meta: bool, ctrl: bool, alt: bool, shift: bool, key: string, code: string)

  /** Characters with the Unicode White_Space property, which `str::trim` removes. */
  predicate IsWhitespace(ch: char) {
    ch == ' ' || ('\t' <= ch <= '\r') || ch == '\U{0085}' || ch == '\U{00A0}' || ch == '\U{1680}'
    || ('\U{2000}' <= ch <= '\U{200A}') || ch == '\U{2028}' || ch == '\U{2029}' || ch == '\U{202F}'
    || ch == '\U{205F}' || ch == '\U{3000}'
  }

  /** `s.trim() == ""`. */
  predicate TrimsToEmpty(s: string) {
    forall i :: 0 <= i < |s| ==> IsWhitespace(s[i])
  }

  /** The key's text, or its code when the text is blank. */
  function KeyName(e: KeyEvent): string {
    if !TrimsToEmpty(e.key) then e.key else e.code
  }

  function ModifierPrefix(meta: bool, ctrl: bool, alt: bool, shift: bool): string {
    (if meta then "Meta-" else "") + (if ctrl then "Ctrl-" else "") + (if alt then "Alt-" else "") + (if shift then "Shift-" else "")
  }

  function KeyCombination(e: KeyEvent): string {
    ModifierPrefix(e.meta, e.ctrl, e.alt, e.shift) + KeyName(e)
  }

  predicate StartsWith(s: string, p: string) {
    |p| <= |s| && s[..|p|] == p
  }

  /** Removing the word `p` from the front of `s`, saying whether it was there. */
  function Strip(s: string, p: string): (bool, string) {
    if StartsWith(s, p) then (true, s[|p|..]) else (false, s)
  }

  /** Reading the modifiers back, in the order they are written. */
  function SplitCombination(s: string): (bool, bool, bool, bool, string) {
    var (meta, s1) := Strip(s, "Meta-");
    var (ctrl, s2) := Strip(s1, "Ctrl-");
    var (alt, s3) := Strip(s2, "Alt-");
    var (shift, rest) := Strip(s3, "Shift-");
    (meta, ctrl, alt, shift, rest)
  }

  /** The key name does not itself look like a modifier. */
  predicate PlainKey(k: string) {
    !StartsWith(k, "Meta-") && !StartsWith(k, "Ctrl-") && !StartsWith(k, "Alt-") && !StartsWith(k, "Shift-")
  }

  lemma StripWritten(p: string, flag: bool, t: string)
    requires !StartsWith(t, p)
    ensures Strip((if flag then p else "") + t, p) == (flag, t)
  {
    if flag {
      assert (p + t)[..|p|] == p && (p + t)[|p|..] == t;
    } else {
      assert "" + t == t;
    }
  }

  lemma FirstDiffers(s: string, p: string)
    requires |s| > 0 && |p| > 0 && s[0] != p[0]
    ensures !StartsWith(s, p)
  {
    if |p| <= |s| {
      assert s[..|p|][0] == s[0];
    }
  }

  /** The word `p` when `flag` is set, in front of `t`. */
  function Layer(flag: bool, p: string, t: string): string {
    (if flag then p else "") + t
  }

  /** None of the inner layers starts with an outer modifier word. */
  lemma InnerLayers(ctrl: bool, alt: bool, shift: bool, k: string)
    requires PlainKey(k)
    ensures var t3 := Layer(shift, "Shift-", k);
      var t2 := Layer(alt, "Alt-", t3);
      !StartsWith(t3, "Alt-") && !StartsWith(t2, "Ctrl-") && !StartsWith(Layer(ctrl, "Ctrl-", t2), "Meta-")
  {
    var t3 := Layer(shift, "Shift-", k);
    var t2 := Layer(alt, "Alt-", t3);
    var t1 := Layer(ctrl, "Ctrl-", t2);
    if shift { FirstDiffers(t3, "Alt-"); FirstDiffers(t3, "Ctrl-"); FirstDiffers(t3, "Meta-"); } else { assert t3 == k; }
    if alt { FirstDiffers(t2, "Ctrl-"); FirstDiffers(t2, "Meta-"); } else { assert t2 == t3; }
    if ctrl { FirstDiffers(t1, "Meta-"); } else { assert t1 == t2; }
  }

  /**
   * The combination string determines the event's modifiers and key name,
   * as long as the key name is not itself a modifier word.
   */
  lemma KeyCombinationSplits(e: KeyEvent)
    requires PlainKey(KeyName(e))
    ensures SplitCombination(KeyCombination(e)) == (e.meta, e.ctrl, e.alt, e.shift, KeyName(e))
  {
    var k := KeyName(e);
    var t3 := Layer(e.shift, "Shift-", k);
    var t2 := Layer(e.alt, "Alt-", t3);
    var t1 := Layer(e.ctrl, "Ctrl-", t2);
    var s := Layer(e.meta, "Meta-", t1);
    assert KeyCombination(e) == s by {
      LayersAssociate(e.meta, e.ctrl, e.alt, e.shift, k);
    }
    InnerLayers(e.ctrl, e.alt, e.shift, k);
    StripWritten("Meta-", e.meta, t1);
    StripWritten("Ctrl-", e.ctrl, t2);
    StripWritten("Alt-", e.alt, t3);
    StripWritten("Shift-", e.shift, k);
    SplitOfStrips(s, e.meta, e.ctrl, e.alt, e.shift, t1, t2, t3, k);
  }

  /** The combination is the key name wrapped in one layer per modifier, outermost `Meta-`. */
  lemma LayersAssociate(meta: bool, ctrl: bool, alt: bool, shift: bool, k: string)
    ensures ModifierPrefix(meta, ctrl, alt, shift) + k
      == Layer(meta, "Meta-", Layer(ctrl, "Ctrl-", Layer(alt, "Alt-", Layer(shift, "Shift-", k))))
  {
    var a, b, c, d := (if meta then "Meta-" else ""), (if ctrl then "Ctrl-" else ""), (if alt then "Alt-" else ""), (if shift then "Shift-" else "");
    assert a + b + c + d + k == a + (b + (c + (d + k)));
  }

  /** `SplitCombination` is the chain of the four strips. */
  lemma SplitOfStrips(s: string, meta: bool, ctrl: bool, alt: bool, shift: bool, t1: string, t2: string, t3: string, k: string)
    requires Strip(s, "Meta-") == (meta, t1) && Strip(t1, "Ctrl-") == (ctrl, t2)
    requires Strip(t2, "Alt-") == (alt, t3) && Strip(t3, "Shift-") == (shift, k)
    ensures SplitCombination(s) == (meta, ctrl, alt, shift, k)
  {
  }

  // ---------------------------------------------------------------------------
  // The editor state.

  class Model {
    /** The current session's cells. */
    var grammars: GrammarMap
    /** The current session's `meta` grammar, kept beside the map. */
    var meta: Grammar
    var activeCell: Option<Coordinate>
    var firstSelectCell: Option<Coordinate>
    var lastSelectCell: Option<Coordinate>
    var suggestions: seq<Suggestion>

    constructor (grammars: GrammarMap, meta: Grammar)
      ensures this.grammars == grammars && this.meta == meta
      ensures activeCell == None && firstSelectCell == None && lastSelectCell == None
      ensures suggestions == []
    {
      this.grammars := grammars;
      this.meta := meta;
      activeCell := None;
      firstSelectCell := None;
      lastSelectCell := None;
      suggestions := [];
    }

    method ChangeInput(coord: Coordinate, v: string)
      modifies this
      ensures grammars == if coord in old(grammars) then old(grammars)[coord := WithInput(old(grammars)[coord], v)] else old(grammars)
      ensures unchanged(this`meta, this`activeCell, this`firstSelectCell, this`lastSelectCell, this`suggestions)
    {
      if coord in grammars {
        grammars := grammars[coord := WithInput(grammars[coord], v)];
      }
    }

    method ToggleLookup(coord: Coordinate)
      modifies this
      ensures grammars == if coord in old(grammars) then old(grammars)[coord := Toggled(old(grammars)[coord])] else old(grammars)
      ensures unchanged(this`meta, this`activeCell, this`firstSelectCell, this`lastSelectCell, this`suggestions)
    {
      if coord in grammars {
        grammars := grammars[coord := Toggled(grammars[coord])];
      }
    }

    method SetActiveCell(coord: Coordinate)
      modifies this
      ensures activeCell == Some(coord)
      ensures unchanged(this`grammars, this`meta, this`firstSelectCell, this`lastSelectCell, this`suggestions)
    {
      activeCell := Some(coord);
    }

    /** `Select(Start)`: a new selection begins. */
    method SelectStart(coord: Coordinate)
      modifies this
      ensures firstSelectCell == Some(coord) && lastSelectCell == None
      ensures unchanged(this`grammars, this`meta, this`activeCell, this`suggestions)
    {
      firstSelectCell := Some(coord);
      lastSelectCell := None;
    }

    /** `Select(End)`: close the selection at `coord`, widened over merged cells. */
    method SelectEnd(coord: Coordinate)
      modifies this
      requires firstSelectCell.Some? ==> SelectEndDefined(firstSelectCell.value, coord) && NoEmptyKey(grammars)
      ensures old(firstSelectCell).None? ==> unchanged(this)
      ensures old(firstSelectCell).Some? ==>
        firstSelectCell.Some? && lastSelectCell.Some?
        && SelectedAs(old(grammars), old(firstSelectCell).value, coord, firstSelectCell.value, lastSelectCell.value)
      ensures unchanged(this`grammars, this`meta, this`activeCell, this`suggestions)
    {
      if firstSelectCell.Some? {
        var start, end := WalkToCommonDepth(firstSelectCell.value, coord);
        ghost var a := old(firstSelectCell).value;
        ghost var dd := CommonDepth(a, coord);
        var (startRow, startCol) := Last(start);
        var (endRow, endCol) := Last(end);
        if startRow > endRow {
          var tmp := startRow;
          startRow := endRow;
          endRow := tmp;
        }
        if startCol > endCol {
          var tmp := startCol;
          startCol := endCol;
          endCol := tmp;
        }
        var depthCheck := |start|;
        var r := GrowSelection(grammars, depthCheck, Rect(startRow, startCol, endRow, endCol));
        start := start[depthCheck - 1 := (r.top, r.left)];
        end := end[depthCheck - 1 := (r.bottom, r.right)];
        assert start[..dd - 1] == a[..dd - 1];
        assert end[..dd - 1] == coord[..dd - 1];
        firstSelectCell := Some(start);
        lastSelectCell := Some(end);
      }
    }

    /** `RangeDelete`: empty the selected input cells and the cells of selected grids. */
    method RangeDelete()
      modifies this
      requires firstSelectCell.Some? && lastSelectCell.Some?
      requires |firstSelectCell.value| >= 1 && |lastSelectCell.value| >= 1 && NoEmptyKey(grammars)
      ensures grammars == RangeDeleted(old(grammars), old(firstSelectCell).value, old(lastSelectCell).value)
      ensures unchanged(this`meta, this`activeCell, this`firstSelectCell, this`lastSelectCell, this`suggestions)
    {
      grammars := RangeDeleteMap(grammars, firstSelectCell.value, lastSelectCell.value);
    }

    /**
     * `MergeCells`: without both selection ends nothing changes and the result
     * is false; otherwise the selected cells are merged into the bottom-right one.
     */
    method MergeCells() returns (ok: bool)
      modifies this
      requires firstSelectCell.Some? && lastSelectCell.Some? ==>
        |firstSelectCell.value| >= 1 && |lastSelectCell.value| >= 1 &&
        forall k :: k in grammars ==> Printable(k)
      ensures ok <==> old(firstSelectCell).Some? && old(lastSelectCell).Some?
      ensures !ok ==> unchanged(this)
      ensures ok ==> grammars == Merged(old(grammars), old(firstSelectCell).value, old(lastSelectCell).value)
      ensures unchanged(this`meta, this`activeCell, this`firstSelectCell, this`lastSelectCell, this`suggestions)
    {
      if firstSelectCell.None? || lastSelectCell.None? {
        return false;
      }
      grammars := MergeMap(grammars, firstSelectCell.value, lastSelectCell.value);
      return true;
    }

    /**
     * `AddNestedGrid`: replace `coord` with an empty grid of the given size and
     * move the active cell to its first cell; without an active cell, nothing.
     */
    method AddNestedGrid(coord: Coordinate, rows: nat, cols: nat) returns (ok: bool)
      modifies this
      requires activeCell.Some? ==> activeCell.value in grammars && rows >= 1 && cols >= 1 && |coord| >= 1
      ensures ok <==> old(activeCell).Some?
      ensures !ok ==> unchanged(this)
      ensures ok ==> (rows >= 1 && cols >= 1 &&
        grammars == NestedGrid(old(grammars), coord, rows, cols, old(grammars)[old(activeCell).value].style) &&
        activeCell == Some(ChildOf(coord, (1, 1))))
      ensures unchanged(this`meta, this`firstSelectCell, this`lastSelectCell, this`suggestions)
    {
      if activeCell.None? {
        return false;
      }
      var current := grammars[activeCell.value];
      var rc := NonZeroTuple((rows, cols));
      GridCellsSpec(rc.0, rc.1);
      activeCell := Some(ChildOf(coord, GridCells(rc.0, rc.1)[0]));
      grammars := NestedGridMap(grammars, coord, rc.0, rc.1, current.style);
      return true;
    }

    /** `InsertRow`: a new row of default cells under the last row of the active cell's column. */
    method InsertRow() returns (ok: bool)
      modifies this
      requires activeCell.Some? ==> |activeCell.value| >= 2 && NoEmptyKey(grammars)
      ensures ok
      ensures old(activeCell).None? ==> unchanged(this)
      ensures old(activeCell).Some? ==> (
        var c := old(activeCell).value;
        LineInserted(old(grammars), c[..|c| - 1], NewPairs(old(grammars), Extreme(old(grammars), c, true), true), grammars))
      ensures unchanged(this`meta, this`activeCell, this`firstSelectCell, this`lastSelectCell, this`suggestions)
    {
      if activeCell.Some? {
        grammars := InsertLine(grammars, activeCell.value, true);
      }
      return true;
    }

    /** `InsertCol`: a new column of default cells right of the last column of the active cell's row. */
    method InsertCol() returns (ok: bool)
      modifies this
      requires activeCell.Some? ==> |activeCell.value| >= 2 && NoEmptyKey(grammars)
      ensures ok
      ensures old(activeCell).None? ==> unchanged(this)
      ensures old(activeCell).Some? ==> (
        var c := old(activeCell).value;
        LineInserted(old(grammars), c[..|c| - 1], NewPairs(old(grammars), Extreme(old(grammars), c, false), false), grammars))
      ensures unchanged(this`meta, this`activeCell, this`firstSelectCell, this`lastSelectCell, this`suggestions)
    {
      if activeCell.Some? {
        grammars := InsertLine(grammars, activeCell.value, false);
      }
      return true;
    }
      /** util.rs `move_grammar`: copy the tree at `source` to `dest`. */
    method MoveGrammar(source: Coordinate, dest: Coordinate)
      modifies this
      requires source in grammars && grammars[source].kind.Grid? ==> Movable(source, dest)
      ensures Moved(old(grammars), source, dest, grammars)
      ensures unchanged(this`meta, this`activeCell, this`firstSelectCell, this`lastSelectCell, this`suggestions)
    {
      grammars := MoveMap(grammars, source, dest);
    }

    /**
     * `AddDefinition`: copy the grammar at `coord` to the next free row of
     * column A of `meta` (B when staging), list that pair in `meta`, clear the
     * source unless staging, and give the copy the definition's name.
     */
    method AddDefinition(coord: Coordinate, defnName: string, staging: bool) returns (ok: bool)
      modifies this
      requires NoEmptyKey(grammars)
      requires coord in grammars ==> Unrelated(coord, ChildOf(Meta, DefnSlot(grammars, if staging then 2 else 1)))
      ensures ok
      ensures DefinitionAdded(old(grammars), old(meta), coord, defnName, if staging then 2 else 1, !staging, grammars, meta)
      ensures unchanged(this`activeCell, this`firstSelectCell, this`lastSelectCell, this`suggestions)
    {
      grammars, meta := Define(grammars, meta, coord, defnName, if staging then 2 else 1, !staging);
      return true;
    }

    /** `StageDefinition`: copy the grammar at `coord` to the next free row of column B of `meta`, named. */
    method StageDefinition(coord: Coordinate, defnName: string) returns (ok: bool)
      modifies this
      requires NoEmptyKey(grammars)
      requires coord in grammars ==> Unrelated(coord, ChildOf(Meta, DefnSlot(grammars, 2)))
      ensures ok
      ensures DefinitionAdded(old(grammars), old(meta), coord, defnName, 2, false, grammars, meta)
      ensures unchanged(this`activeCell, this`firstSelectCell, this`lastSelectCell, this`suggestions)
    {
      grammars, meta := Define(grammars, meta, coord, defnName, 2, false);
      return true;
    }

    /**
     * `BindDefinition`: when the definition's parent cell exists, name the
     * definition and the binding cell `parent::binding` (or just `binding`
     * under an unnamed parent), then copy the binding cell to the next free
     * row of column A of `meta`; otherwise nothing changes and the result is false.
     */
    method BindDefinition(defnCoord: Coordinate, bindingCoord: Coordinate, bindingName: string) returns (ok: bool)
      modifies this
      requires |defnCoord| != 1
      requires NoEmptyKey(grammars)
      requires Parent(defnCoord).value in grammars && bindingCoord in grammars ==>
        Unrelated(bindingCoord, ChildOf(Meta, DefnSlot(grammars, 1)))
      ensures ok <==> Parent(defnCoord).value in old(grammars)
      ensures !ok ==> unchanged(this)
      ensures ok ==> Bound(old(grammars), old(meta), defnCoord, bindingCoord, bindingName, grammars, meta)
      ensures unchanged(this`activeCell, this`firstSelectCell, this`lastSelectCell, this`suggestions)
    {
      var g, m;
      ok, g, m := Bind(grammars, meta, defnCoord, bindingCoord, bindingName);
      if ok {
        grammars, meta := g, m;
      }
    }

    /** `Recreate`: replace the current map by the starting sheet. */
    method Recreate()
      modifies this
      ensures grammars == BuildSheet(RootTable(), MetaTable(), DefnTable())
      ensures unchanged(this`meta, this`activeCell, this`firstSelectCell, this`lastSelectCell, this`suggestions)
    {
      var m := BuildGrammarMap(map[], Root, MapEntry.Grid(RootTable()));
      m := BuildGrammarMap(m, Meta, MapEntry.Grid(MetaTable()));
      m := BuildGrammarMap(m, DefnForm, MapEntry.Grid(DefnTable()));
      grammars := m;
    }

    /** The recomputation at the end of `update`: completions from `meta-A`, then bindings from `meta-B`. */
    method RefreshSuggestions()
      modifies this
      requires NoEmptyKey(grammars)
      ensures unchanged(this`grammars, this`meta, this`activeCell, this`firstSelectCell, this`lastSelectCell)
      ensures SuggestionsOf(grammars, suggestions)
    {
      var completions := ListSuggestions(grammars, QueryCol(grammars, MetaCol(1)), true);
      var bindings := ListSuggestions(grammars, QueryCol(grammars, MetaCol(2)), false);
      suggestions := completions + bindings;
      assert suggestions[..|completions|] == completions && suggestions[|completions|..] == bindings;
    }
  }
}
