/**
 * The text form of coordinates: the formatter that prints `root-A1-B2`, and
 * the `coord!`, `coord_col!` and `coord_row!` parsers that read it back.
 * A parse the source rejects with a panic yields None here.
 */
module CoordText {
  import opened Wrappers
  import opened Coordinates

  const U32_MAX: int := 0xFFFF_FFFF

  predicate IsDigit(ch: char) {
    '0' <= ch <= '9'
  }

  predicate IsUpper(ch: char) {
    'A' <= ch <= 'Z'
  }

  predicate AllDigits(s: string) {
    forall i :: 0 <= i < |s| ==> IsDigit(s[i])
  }

  function DigitChar(d: nat): (ch: char)
    requires d < 10
    ensures IsDigit(ch)
  {
    ('0' as int + d) as char
  }

  function DigitValue(ch: char): nat
    requires IsDigit(ch)
  {
    ch as int - '0' as int
  }

  /** Decimal text without leading zeros, as `u32::to_string` prints it. */
  function NatToString(n: nat): (s: string)
    ensures |s| >= 1 && AllDigits(s)
    ensures |s| == 1 <==> n < 10
    ensures s[0] == '0' <==> n == 0
  {
    if n < 10 then [DigitChar(n)] else NatToString(n / 10) + [DigitChar(n % 10)]
  }

  /** The number a run of decimal digits denotes. */
  function DecimalValue(s: string): nat
    requires AllDigits(s)
  {
    if s == [] then 0 else 10 * DecimalValue(s[..|s| - 1]) + DigitValue(s[|s| - 1])
  }

  lemma {:induction false} DecimalValueOfNatToString(n: nat)
    ensures DecimalValue(NatToString(n)) == n
  {
    if n >= 10 {
      var s := NatToString(n);
      assert s[..|s| - 1] == NatToString(n / 10);
      DecimalValueOfNatToString(n / 10);
    }
  }

  /** Signed decimal text, as `i32::to_string` prints it. */
  function IntToString(i: int): string {
    if i < 0 then "-" + NatToString(-i) else NatToString(i)
  }

  /** `from_u32(c + 64)` succeeds exactly when `c + 64` is a Unicode scalar value. */
  predicate ValidColumn(c: Pos) {
    c + 64 < 0xD800 || 0xE000 <= c + 64 < 0x11_0000
  }

  function ColumnLetter(c: Pos): (ch: char)
    requires ValidColumn(c)
    ensures ch as int == c + 64
  {
    (c + 64) as char
  }

  /** util.rs `non_zero_u32_tuple`: both components must be non-zero. */
  function NonZeroTuple(v: (nat, nat)): (rc: RowCol)
    requires v.0 != 0 && v.1 != 0
    ensures rc.0 == v.0 && rc.1 == v.1
  {
    (v.0, v.1)
  }

  /** One pair as text: the column letter, then the decimal row. */
  function RowColToString(rc: RowCol): (s: string)
    requires ValidColumn(rc.1)
    ensures |s| >= 2 && s[0] as int == rc.1 + 64 && AllDigits(s[1..]) && DecimalValue(s[1..]) == rc.0
  {
    DecimalValueOfNatToString(rc.0);
    assert ([ColumnLetter(rc.1)] + NatToString(rc.0))[1..] == NatToString(rc.0);
    [ColumnLetter(rc.1)] + NatToString(rc.0)
  }

  predicate ColumnsPrintable(cs: Coordinate) {
    forall i :: 0 <= i < |cs| ==> ValidColumn(cs[i].1)
  }

  /** The first pair names one of the two top-level grids. */
  predicate HasTopHead(c: Coordinate) {
    |c| >= 1 && (c[0] == (1, 1) || c[0] == (1, 2))
  }

  /** `Coordinate::to_string` succeeds. */
  predicate Printable(c: Coordinate) {
    HasTopHead(c) && ColumnsPrintable(c[1..])
  }

  function HeadWord(rc: RowCol): string
    requires rc == (1, 1) || rc == (1, 2)
  {
    if rc == (1, 1) then "root" else "meta"
  }

  /** The `-`-separated pieces that follow the head word. */
  function Tail(cs: Coordinate): string
    requires ColumnsPrintable(cs)
  {
    if cs == [] then "" else Tail(cs[..|cs| - 1]) + "-" + RowColToString(cs[|cs| - 1])
  }

  /** util.rs `coord_show`: a path under `root` or `meta` printed as text, otherwise None. */
  function Show(c: Coordinate): (s: Option<string>)
    requires HasTopHead(c) ==> ColumnsPrintable(c[1..])
    ensures s.Some? <==> HasTopHead(c)
    ensures s.Some? ==> |s.value| >= 4 && s.value[..4] == (if c[0] == (1, 1) then "root" else "meta")
  {
    if HasTopHead(c) then Some(HeadWord(c[0]) + Tail(c[1..])) else None
  }

  /** `coord_show` as the source writes it: a loop appending one piece per pair. */
  method CoordShow(c: Coordinate) returns (s: Option<string>)
    requires HasTopHead(c) ==> ColumnsPrintable(c[1..])
    ensures s == Show(c)
  {
    if |c| == 0 || (c[0] != (1, 1) && c[0] != (1, 2)) {
      return None;
    }
    var output := if c[0] == (1, 1) then "root" else "meta";
    var i := 1;
    while i < |c|
      invariant 1 <= i <= |c|
      invariant output == HeadWord(c[0]) + Tail(c[1..i])
    {
      ShowStep(c, i);
      output := output + "-" + RowColToString(c[i]);
      i := i + 1;
    }
    assert c[1..|c|] == c[1..];
    return Some(output);
  }

  /** One more pair printed: the text so far, a dash, and the pair. */
  lemma ShowStep(c: Coordinate, i: nat)
    requires HasTopHead(c) && ColumnsPrintable(c[1..]) && 1 <= i < |c|
    ensures ColumnsPrintable(c[1..i]) && ColumnsPrintable(c[1..i + 1]) && ValidColumn(c[i].1)
    ensures HeadWord(c[0]) + Tail(c[1..i + 1]) == HeadWord(c[0]) + Tail(c[1..i]) + "-" + RowColToString(c[i])
  {
    assert c[1..i + 1][..i - 1] == c[1..i];
    assert c[1..i + 1][i - 1] == c[i];
  }

  /** `Coordinate::to_string`, which unwraps `coord_show`. */
  function ToString(c: Coordinate): string
    requires Printable(c)
  {
    Show(c).value
  }

  /** `row_to_string`: the parent's text and the row number, or the bare row at the top. */
  function RowToString(c: Coordinate): string
    requires |c| >= 1 && (|c| >= 2 ==> Printable(c[..|c| - 1]))
  {
    if |c| >= 2 then ToString(c[..|c| - 1]) + "-" + NatToString(RowIndex(c))
    else NatToString(RowIndex(c))
  }

  /** `col_to_string`: the parent's text and the column letter, or the bare letter at the top. */
  function ColToString(c: Coordinate): string
    requires |c| >= 1 && ValidColumn(ColIndex(c)) && (|c| >= 2 ==> Printable(c[..|c| - 1]))
  {
    if |c| >= 2 then ToString(c[..|c| - 1]) + "-" + [ColumnLetter(ColIndex(c))]
    else [ColumnLetter(ColIndex(c))]
  }

  // ---------------------------------------------------------------------------
  // Parsing.  The token shape is the special word `root` or `meta`, then any
  // number of fragments `-` LETTERS DIGITS; the whole string must match.

  /** Length of the leading run of capital letters. */
  function LettersSpan(s: string): (n: nat)
    ensures n <= |s|
  {
    if s == [] || !IsUpper(s[0]) then 0 else 1 + LettersSpan(s[1..])
  }

  /** Length of the leading run of decimal digits. */
  function DigitsSpan(s: string): (n: nat)
    ensures n <= |s|
  {
    if s == [] || !IsDigit(s[0]) then 0 else 1 + DigitsSpan(s[1..])
  }

  /** The column a run of letters denotes: the sum of each character's code minus 64. */
  function LetterSum(s: string): int {
    if s == [] then 0 else LetterSum(s[..|s| - 1]) + (s[|s| - 1] as int - 64)
  }

  /** Every character is at least `@`, so `(ch as u32) - 64` does not underflow. */
  predicate NoUnderflow(s: string) {
    forall i :: 0 <= i < |s| ==> s[i] as int >= 64
  }

  lemma {:induction false} LetterSumBounds(s: string)
    ensures NoUnderflow(s) ==> LetterSum(s) >= 0
    ensures (forall i :: 0 <= i < |s| ==> IsUpper(s[i])) ==> LetterSum(s) >= |s|
  {
    if s != [] {
      LetterSumBounds(s[..|s| - 1]);
    }
  }

  /**
   * One fragment `-` LETTERS DIGITS at the start of `s`: its pair and the number
   * of characters it spans.  No letters, no digits, a zero row, or a value beyond
   * `u32` is rejected.
   */
  function Fragment(s: string): (r: Option<(RowCol, nat)>)
    ensures r.Some? ==> 3 <= r.value.1 <= |s|
  {
    if s == [] || s[0] != '-' then None
    else
      var u := s[1..];
      var nl := LettersSpan(u);
      var v := u[nl..];
      var nd := DigitsSpan(v);
      LetterRun(u);
      DigitRun(v);
      FragmentOf(nl, nd, LetterSum(u[..nl]), DecimalValue(v[..nd]))
  }

  /**
   * The checks on a fragment whose runs have `nl` letters and `nd` digits
   * denoting column `col` and row `row`.
   */
  function FragmentOf(nl: nat, nd: nat, col: int, row: nat): (r: Option<(RowCol, nat)>)
    requires nl > 0 ==> col >= nl
    ensures r.Some? <==> nl > 0 && nd > 0 && col <= U32_MAX && 0 < row <= U32_MAX
    ensures r.Some? ==> r.value == ((row, col), 1 + nl + nd)
  {
    if nl == 0 || nd == 0 || col > U32_MAX || row == 0 || row > U32_MAX then None
    else
      var rc: RowCol := (row, col);
      Some((rc, 1 + nl + nd))
  }

  /** The fragments of a coordinate string after its head word. */
  function ParseFragments(s: string): Option<Coordinate>
    decreases |s|
  {
    if s == [] then Some([])
    else
      match Fragment(s)
      case None => None
      case Some(f) => Prepend([f.0], ParseFragments(s[f.1..]))
  }

  function Prepend(f: Coordinate, t: Option<Coordinate>): Option<Coordinate> {
    match t
    case None => None
    case Some(v) => Some(f + v)
  }

  /** `coord!`: `root` is (1,1), `meta` is (1,2), followed by the parsed fragments. */
  function ParseCoord(s: string): (r: Option<Coordinate>)
    ensures r.Some? ==> |s| >= 4 && HasTopHead(r.value) && r.value[0] == (if s[..4] == "root" then (1, 1) else (1, 2))
  {
    if |s| >= 4 && s[..4] == "root" then Prepend([(1, 1)], ParseFragments(s[4..]))
    else if |s| >= 4 && s[..4] == "meta" then Prepend([(1, 2)], ParseFragments(s[4..]))
    else None
  }

  /** `LettersSpan` covers only capitals and stops at the first other character. */
  lemma {:induction false} LettersSpanMaximal(s: string)
    ensures forall i :: 0 <= i < LettersSpan(s) ==> IsUpper(s[i])
    ensures LettersSpan(s) < |s| ==> !IsUpper(s[LettersSpan(s)])
  {
    if s != [] && IsUpper(s[0]) {
      var n := LettersSpan(s[1..]);
      LettersSpanMaximal(s[1..]);
      forall i | 0 < i < 1 + n ensures IsUpper(s[i]) {
        assert s[i] == s[1..][i - 1];
      }
      if 1 + n < |s| {
        assert s[1 + n] == s[1..][n];
      }
    }
  }

  /** `DigitsSpan` covers only digits and stops at the first other character. */
  lemma {:induction false} DigitsSpanMaximal(s: string)
    ensures forall i :: 0 <= i < DigitsSpan(s) ==> IsDigit(s[i])
    ensures DigitsSpan(s) < |s| ==> !IsDigit(s[DigitsSpan(s)])
  {
    if s != [] && IsDigit(s[0]) {
      var n := DigitsSpan(s[1..]);
      DigitsSpanMaximal(s[1..]);
      forall i | 0 < i < 1 + n ensures IsDigit(s[i]) {
        assert s[i] == s[1..][i - 1];
      }
      if 1 + n < |s| {
        assert s[1 + n] == s[1..][n];
      }
    }
  }

  /** The leading run of capitals denotes a column at least as large as its length. */
  lemma LetterRun(u: string)
    ensures LetterSum(u[..LettersSpan(u)]) >= LettersSpan(u)
  {
    var n := LettersSpan(u);
    LettersSpanMaximal(u);
    assert forall m :: 0 <= m < n ==> u[..n][m] == u[m];
    LetterSumBounds(u[..n]);
  }

  /** The leading run of digits is all digits. */
  lemma DigitRun(v: string)
    ensures AllDigits(v[..DigitsSpan(v)])
  {
    var n := DigitsSpan(v);
    DigitsSpanMaximal(v);
    assert forall m :: 0 <= m < n ==> v[..n][m] == v[m];
  }

  /** A run of `n` capitals followed by the end or another character is the span. */
  lemma {:induction false} LettersSpanIs(s: string, n: nat)
    requires n <= |s| && (forall i :: 0 <= i < n ==> IsUpper(s[i])) && (n < |s| ==> !IsUpper(s[n]))
    ensures LettersSpan(s) == n
  {
    if n > 0 {
      assert forall i :: 0 <= i < n - 1 ==> s[1..][i] == s[i + 1];
      LettersSpanIs(s[1..], n - 1);
    }
  }

  /** A run of `n` digits followed by the end or another character is the span. */
  lemma {:induction false} DigitsSpanIs(s: string, n: nat)
    requires n <= |s| && (forall i :: 0 <= i < n ==> IsDigit(s[i])) && (n < |s| ==> !IsDigit(s[n]))
    ensures DigitsSpan(s) == n
  {
    if n > 0 {
      assert forall i :: 0 <= i < n - 1 ==> s[1..][i] == s[i + 1];
      DigitsSpanIs(s[1..], n - 1);
    }
  }

  lemma PrependPrepend(f: Coordinate, g: Coordinate, t: Option<Coordinate>)
    ensures Prepend(f, Prepend(g, t)) == Prepend(f + g, t)
  {
    if t.Some? {
      assert f + (g + t.value) == (f + g) + t.value;
    }
  }

  /**
   * The fragment at `s[i]`, with its letters in `s[i+1..j]` and its digits in
   * `s[j..k]`: `Fragment` applies its checks to exactly those runs.
   */
  lemma {:induction false} FragmentAtIs(s: string, i: nat, j: nat, k: nat)
    requires i < |s| && s[i] == '-' && i + 1 <= j <= k <= |s|
    requires LettersSpan(s[i + 1..]) == j - i - 1 && DigitsSpan(s[j..]) == k - j
    ensures AllDigits(s[j..k]) && (j > i + 1 ==> LetterSum(s[i + 1..j]) >= j - i - 1)
    ensures Fragment(s[i..]) == FragmentOf(j - i - 1, k - j, LetterSum(s[i + 1..j]), DecimalValue(s[j..k]))
  {
    var u := s[i..][1..];
    var nl := j - i - 1;
    assert u == s[i + 1..];
    assert u[..nl] == s[i + 1..j];
    assert u[nl..] == s[j..];
    assert s[j..][..k - j] == s[j..k];
    LetterRun(u);
    DigitRun(s[j..]);
  }

  /** The letter loop of `coord!`: sums `ch - 64` over the run of capitals from `s[from]`. */
  method SumLetters(s: string, from: nat) returns (to: nat, col: int)
    requires from <= |s|
    ensures from <= to <= |s| && to - from == LettersSpan(s[from..])
    ensures col == LetterSum(s[from..to])
  {
    to, col := from, 0;
    while to < |s| && IsUpper(s[to])
      invariant from <= to <= |s|
      invariant forall m :: from <= m < to ==> IsUpper(s[m])
      invariant col == LetterSum(s[from..to])
    {
      assert s[from..to + 1][..to - from] == s[from..to];
      col := col + (s[to] as int - 64);
      to := to + 1;
    }
    LettersSpanIs(s[from..], to - from);
  }

  /** `str::parse::<u32>` over the run of digits from `s[from]`, before the range check. */
  method ReadDigits(s: string, from: nat) returns (to: nat, row: nat)
    requires from <= |s|
    ensures from <= to <= |s| && to - from == DigitsSpan(s[from..])
    ensures AllDigits(s[from..to]) && row == DecimalValue(s[from..to])
  {
    to, row := from, 0;
    while to < |s| && IsDigit(s[to])
      invariant from <= to <= |s|
      invariant forall m :: from <= m < to ==> IsDigit(s[m])
      invariant AllDigits(s[from..to]) && row == DecimalValue(s[from..to])
    {
      assert s[from..to + 1][..to - from] == s[from..to];
      row := 10 * row + DigitValue(s[to]);
      to := to + 1;
    }
    DigitsSpanIs(s[from..], to - from);
  }

  /** `ParseFragments` stops at a position that does not hold `-`. */
  lemma NoDashStops(s: string, i: nat)
    requires i < |s| && s[i] != '-'
    ensures ParseFragments(s[i..]) == None
  {
    assert s[i..][0] == s[i];
  }

  /** The runs the loops of `coord!` find at the `-` in `s[i]`: letters in `s[i+1..j]`, digits in `s[j..k]`. */
  predicate RunsAt(s: string, i: nat, j: nat, k: nat, col: int, row: nat) {
    && i < |s| && s[i] == '-' && i + 1 <= j <= k <= |s|
    && LettersSpan(s[i + 1..]) == j - i - 1 && DigitsSpan(s[j..]) == k - j
    && AllDigits(s[j..k]) && col == LetterSum(s[i + 1..j]) && row == DecimalValue(s[j..k])
  }

  /** The checks the loop body of `coord!` makes on the runs it found. */
  predicate RunsRejected(i: nat, j: nat, k: nat, col: int, row: nat) {
    j == i + 1 || k == j || col > U32_MAX || row == 0 || row > U32_MAX
  }

  /** Runs the loop rejects are a fragment `ParseFragments` rejects. */
  lemma ParseFragmentsStepNone(s: string, i: nat, j: nat, k: nat, col: int, row: nat)
    requires RunsAt(s, i, j, k, col, row) && RunsRejected(i, j, k, col, row)
    ensures ParseFragments(s[i..]) == None
  {
    FragmentAtIs(s, i, j, k);
    ParseFragmentsUnfold(s[i..]);
  }

  /** Runs the loop accepts are the pair `ParseFragments` puts first. */
  lemma ParseFragmentsStepSome(s: string, i: nat, j: nat, k: nat, col: int, row: nat)
    requires RunsAt(s, i, j, k, col, row) && !RunsRejected(i, j, k, col, row)
    ensures col >= 1 && row >= 1 && ParseFragments(s[i..]) == Prepend([(row, col)], ParseFragments(s[k..]))
  {
    var t := s[i..];
    assert Fragment(t) == FragmentOf(j - i - 1, k - j, col, row) && col >= 1 by {
      FragmentAtIs(s, i, j, k);
    }
    var rc: RowCol := (row, col);
    assert FragmentOf(j - i - 1, k - j, col, row) == Some((rc, k - i));
    ParseFragmentsFirst(t, rc, k - i);
    assert t[k - i..] == s[k..];
  }

  /** `ParseFragments` keeps the first fragment's pair and goes on after it. */
  lemma ParseFragmentsFirst(t: string, rc: RowCol, n: nat)
    requires Fragment(t) == Some((rc, n))
    ensures ParseFragments(t) == Prepend([rc], ParseFragments(t[n..]))
  {
  }

  /** `ParseFragments` on a non-empty string, in terms of its first fragment. */
  lemma ParseFragmentsUnfold(t: string)
    requires t != []
    ensures Fragment(t).None? ==> ParseFragments(t) == None
    ensures Fragment(t).Some? ==> ParseFragments(t) == Prepend([Fragment(t).value.0], ParseFragments(t[Fragment(t).value.1..]))
  {
  }

  /** `coord!` as the source writes it: a loop over the fragments, pushing one pair each. */
  method ParseCoordinate(s: string) returns (r: Option<Coordinate>)
    ensures r == ParseCoord(s)
  {
    if |s| < 4 || (s[..4] != "root" && s[..4] != "meta") {
      return None;
    }
    var fragments: Coordinate := if s[..4] == "root" then [(1, 1)] else [(1, 2)];
    ghost var goal := Prepend(fragments, ParseFragments(s[4..]));
    assert goal == ParseCoord(s);
    var i := 4;
    while i < |s|
      invariant 4 <= i <= |s|
      invariant goal == Prepend(fragments, ParseFragments(s[i..]))
      decreases |s| - i
    {
      if s[i] != '-' {
        NoDashStops(s, i);
        return None;
      }
      var j, col := SumLetters(s, i + 1);
      var k, row := ReadDigits(s, j);
      if RunsRejected(i, j, k, col, row) {
        ParseFragmentsStepNone(s, i, j, k, col, row);
        return None;
      }
      ParseFragmentsStepSome(s, i, j, k, col, row);
      var rc: RowCol := (row, col);
      PrependPrepend(fragments, [rc], ParseFragments(s[k..]));
      fragments := fragments + [rc];
      i := k;
    }
    assert s[i..] == [] && fragments + [] == fragments;
    return Some(fragments);
  }

  /** `coord_col!`: a parent path and a run of letters summed into a column. */
  function ParseColMacro(parent: string, letters: string): Option<Col> {
    match ParseCoord(parent)
    case None => None
    case Some(p) =>
      LetterSumBounds(letters);
      if !NoUnderflow(letters) || LetterSum(letters) == 0 || LetterSum(letters) > U32_MAX then None
      else Some(Col(p, LetterSum(letters)))
  }

  /** The text `u32::from_str` accepts: an optional `+` and at least one digit. */
  function ParseU32(s: string): (r: Option<nat>)
    ensures r.Some? ==> r.value <= U32_MAX
  {
    var digits := if |s| > 0 && s[0] == '+' then s[1..] else s;
    if |digits| == 0 || !AllDigits(digits) || DecimalValue(digits) > U32_MAX then None
    else Some(DecimalValue(digits))
  }

  /** `coord_row!`: a parent path and a decimal, non-zero row. */
  function ParseRowMacro(parent: string, row: string): Option<Row> {
    match ParseCoord(parent)
    case None => None
    case Some(p) =>
      match ParseU32(row)
      case None => None
      case Some(n) => if n == 0 then None else Some(Row(p, n))
  }

  // ---------------------------------------------------------------------------
  // Searching the printed form.

  /** `str::contains`: `t` occurs somewhere in `s`. */
  predicate Contains(s: string, t: string) {
    exists i :: 0 <= i <= |s| - |t| && OccursAt(s, t, i)
  }

  predicate OccursAt(s: string, t: string, i: int) {
    0 <= i <= |s| - |t| && s[i..i + |t|] == t
  }

  /** Every character of a printed tail that is neither a digit nor `-` follows a `-`. */
  ghost predicate LettersAfterDash(t: string) {
    forall j :: 0 <= j < |t| && !IsDigit(t[j]) && t[j] != '-' ==> j >= 1 && t[j - 1] == '-'
  }

  lemma {:induction false} TailLettersAfterDash(cs: Coordinate)
    requires ColumnsPrintable(cs)
    ensures LettersAfterDash(Tail(cs))
    decreases |cs|
  {
    if cs != [] {
      var init := cs[..|cs| - 1];
      TailLettersAfterDash(init);
      var a, p := Tail(init), RowColToString(cs[|cs| - 1]);
      var t := a + "-" + p;
      assert t == Tail(cs);
      forall j | 0 <= j < |t| && !IsDigit(t[j]) && t[j] != '-' ensures j >= 1 && t[j - 1] == '-' {
        if j < |a| {
          assert t[j] == a[j] && (j >= 1 ==> t[j - 1] == a[j - 1]);
        }
      }
    }
  }

  /** The printed form of a cell contains `root-` exactly when the cell lies strictly inside `root`. */
  lemma RootInfix(c: Coordinate)
    requires Printable(c)
    ensures Contains(ToString(c), "root-") <==> |c| >= 2 && c[0] == (1, 1)
  {
    var t := Tail(c[1..]);
    assert ToString(c) == HeadWord(c[0]) + t;
    if |c| >= 2 {
      TailStartsWithDash(c[1..]);
    }
    if c[0] == (1, 1) {
      if |c| >= 2 {
        RootBeforeDash(t);
      } else {
        assert |ToString(c)| < 5;
      }
    } else {
      TailLettersAfterDash(c[1..]);
      NoRootAfterMeta(t);
    }
  }

  /** `root` followed by a tail that opens with a dash holds `root-` at its start. */
  lemma RootBeforeDash(t: string)
    requires |t| > 0 && t[0] == '-'
    ensures Contains("root" + t, "root-")
  {
    var s := "root" + t;
    assert s[0..5] == "root-";
    assert OccursAt(s, "root-", 0);
  }

  /** `meta` followed by a printed tail never holds `root-`: every letter of the tail follows a dash. */
  lemma NoRootAfterMeta(t: string)
    requires LettersAfterDash(t) && (|t| > 0 ==> t[0] == '-')
    ensures !Contains("meta" + t, "root-")
  {
    var s := "meta" + t;
    forall i | 0 <= i <= |s| - 5 ensures !OccursAt(s, "root-", i) {
      if i + 1 >= 4 {
        assert s[i + 1] == t[i - 3];
        if i - 3 >= 1 {
          assert s[i] == t[i - 4];
        }
      } else {
        assert s[i] == "meta"[i];
      }
      assert s[i] != 'r' || s[i + 1] != 'o';
      assert s[i..i + 5][0] == s[i] && s[i..i + 5][1] == s[i + 1];
    }
  }

  // ---------------------------------------------------------------------------
  // Format and parse agree on single-letter columns.

  /** Every pair has a column of one letter `A`..`Z` and a row that fits `u32`. */
  predicate SingleLetterColumns(cs: Coordinate) {
    forall i :: 0 <= i < |cs| ==> cs[i].1 <= 26 && cs[i].0 <= U32_MAX
  }

  lemma {:induction false} TailCons(x: RowCol, cs: Coordinate)
    requires ValidColumn(x.1) && ColumnsPrintable(cs)
    ensures ColumnsPrintable([x] + cs)
    ensures Tail([x] + cs) == "-" + RowColToString(x) + Tail(cs)
    decreases |cs|
  {
    var xs := [x] + cs;
    assert ColumnsPrintable(xs) by {
      forall i | 0 <= i < |xs| ensures ValidColumn(xs[i].1) {
        if i > 0 { assert xs[i] == cs[i - 1]; }
      }
    }
    if cs != [] {
      var init := cs[..|cs| - 1];
      assert xs[..|xs| - 1] == [x] + init;
      assert xs[|xs| - 1] == cs[|cs| - 1];
      TailCons(x, init);
    }
  }

  lemma TailStartsWithDash(cs: Coordinate)
    requires ColumnsPrintable(cs) && cs != []
    ensures |Tail(cs)| > 0 && Tail(cs)[0] == '-'
  {
    TailCons(cs[0], cs[1..]);
    assert cs == [cs[0]] + cs[1..];
  }

  /** The fragment `-` L DIGITS, followed by `-` or the end, spans exactly those characters. */
  lemma {:induction false} FragmentOfParts(l: char, d: string, rest: string)
    requires IsUpper(l) && |d| > 0 && AllDigits(d)
    requires |rest| > 0 ==> rest[0] == '-'
    ensures
      var t := "-" + [l] + d + rest;
      var col := l as int - 64;
      var row := DecimalValue(d);
      (row == 0 || row > U32_MAX ==> Fragment(t).None?) &&
      (row != 0 && row <= U32_MAX ==> Fragment(t).Some? && Fragment(t).value == ((row, col), 2 + |d|))
  {
    var t := "-" + [l] + d + rest;
    var k := 2 + |d|;
    assert t[2..] == d + rest;
    DigitsSpanIs(d + rest, |d|);
    assert t[1..] == [l] + (d + rest);
    LettersSpanIs(t[1..], 1);
    FragmentAtIs(t, 0, 2, k);
    assert t[1..2] == [l] && [l][..0] == [];
    assert t[2..k] == d;
    assert t[0..] == t;
  }

  /** The fragment parser reads back one printed pair followed by `-` or the end. */
  lemma {:induction false} FragmentOfPiece(x: RowCol, rest: string)
    requires x.1 <= 26 && x.0 <= U32_MAX
    requires |rest| > 0 ==> rest[0] == '-'
    ensures
      var t := "-" + RowColToString(x) + rest;
      Fragment(t).Some? && Fragment(t).value.0 == x && t[Fragment(t).value.1..] == rest
  {
    var d := NatToString(x.0);
    var l := ColumnLetter(x.1);
    assert "-" + RowColToString(x) + rest == "-" + [l] + d + rest;
    DecimalValueOfNatToString(x.0);
    FragmentOfParts(l, d, rest);
    assert ("-" + [l] + d + rest)[2 + |d|..] == rest;
  }

  lemma {:induction false} ParseTail(cs: Coordinate)
    requires SingleLetterColumns(cs)
    ensures ColumnsPrintable(cs) && ParseFragments(Tail(cs)) == Some(cs)
    decreases |cs|
  {
    if cs == [] {
      return;
    }
    var x, rest := cs[0], cs[1..];
    assert cs == [x] + rest;
    assert SingleLetterColumns(rest) by {
      forall i | 0 <= i < |rest| ensures rest[i].1 <= 26 && rest[i].0 <= U32_MAX {
        assert rest[i] == cs[i + 1];
      }
    }
    ParseTail(rest);
    TailCons(x, rest);
    if rest != [] {
      TailStartsWithDash(rest);
    }
    FragmentOfPiece(x, Tail(rest));
  }

  /** `coord!(c.to_string()) == c` whenever every column is a single letter. */
  lemma {:induction false} ParseShowRoundTrip(c: Coordinate)
    requires Printable(c) && SingleLetterColumns(c[1..])
    ensures ParseCoord(ToString(c)) == Some(c)
  {
    var s := ToString(c);
    ParseTail(c[1..]);
    assert s[..4] == HeadWord(c[0]);
    assert s[4..] == Tail(c[1..]);
    assert [c[0]] + c[1..] == c;
  }

  /** The length of the run of decimal digits that ends `s`. */
  function DigitSuffix(s: string): (n: nat)
    ensures n <= |s|
  {
    if s == [] || !IsDigit(s[|s| - 1]) then 0 else 1 + DigitSuffix(s[..|s| - 1])
  }

  lemma {:induction false} DigitSuffixOf(p: string, l: char, d: string)
    requires !IsDigit(l) && AllDigits(d)
    ensures DigitSuffix(p + [l] + d) == |d|
    decreases |d|
  {
    var s := p + [l] + d;
    if d == [] {
      assert s == p + [l];
    } else {
      assert s[..|s| - 1] == p + [l] + d[..|d| - 1];
      DigitSuffixOf(p, l, d[..|d| - 1]);
    }
  }

  /**
   * Two printed pieces `-` L DIGITS ending the same text are the same piece:
   * the letter is never a digit, so the run of digits at the end decides
   * where the last piece starts.
   */
  lemma LastPieceUnique(x: string, p: string, y: string, q: string)
    requires |p| >= 1 && |q| >= 1 && !IsDigit(p[0]) && !IsDigit(q[0]) && AllDigits(p[1..]) && AllDigits(q[1..])
    requires x + "-" + p == y + "-" + q
    ensures x == y && p == q
  {
    var s := x + "-" + p;
    var t := y + "-" + q;
    assert s == x + "-" + [p[0]] + p[1..];
    assert t == y + "-" + [q[0]] + q[1..];
    DigitSuffixOf(x + "-", p[0], p[1..]);
    DigitSuffixOf(y + "-", q[0], q[1..]);
    assert |p| == |q|;
    assert p == s[|s| - |p|..] && q == t[|t| - |q|..];
    assert x == s[..|x|] && y == t[..|y|];
  }

  /** The tail of a non-empty list: the tail of all but its last pair, then that pair's piece. */
  lemma TailSnoc(cs: Coordinate)
    requires ColumnsPrintable(cs) && cs != []
    ensures ColumnsPrintable(cs[..|cs| - 1])
    ensures var p := RowColToString(cs[|cs| - 1]);
      Tail(cs) == Tail(cs[..|cs| - 1]) + "-" + p && !IsDigit(p[0]) && AllDigits(p[1..])
  {
  }

  /** The printed tail determines the pairs it was printed from. */
  lemma {:induction false} TailInjective(a: Coordinate, b: Coordinate)
    requires ColumnsPrintable(a) && ColumnsPrintable(b) && Tail(a) == Tail(b)
    ensures a == b
    decreases |a|
  {
    if a == [] || b == [] {
      if a != [] {
        TailStartsWithDash(a);
      } else if b != [] {
        TailStartsWithDash(b);
      }
    } else {
      var ia, ib := a[..|a| - 1], b[..|b| - 1];
      var xa, xb := a[|a| - 1], b[|b| - 1];
      assert Tail(ia) == Tail(ib) && xa == xb by {
        var pa, pb := RowColToString(xa), RowColToString(xb);
        TailSnoc(a);
        TailSnoc(b);
        LastPieceUnique(Tail(ia), pa, Tail(ib), pb);
        PieceUnique(xa, xb);
      }
      TailInjective(ia, ib);
      SameInitAndLast(a, b);
    }
  }

  /** Two non-empty sequences with the same front and the same last element are equal. */
  lemma SameInitAndLast<T>(a: seq<T>, b: seq<T>)
    requires |a| > 0 && |b| > 0 && a[..|a| - 1] == b[..|b| - 1] && a[|a| - 1] == b[|b| - 1]
    ensures a == b
  {
    assert a == a[..|a| - 1] + [a[|a| - 1]] && b == b[..|b| - 1] + [b[|b| - 1]];
  }

  /** A pair's piece determines the pair. */
  lemma PieceUnique(x: RowCol, y: RowCol)
    requires ValidColumn(x.1) && ValidColumn(y.1)
    requires RowColToString(x) == RowColToString(y)
    ensures x == y
  {
  }

  /**
   * Distinct coordinates print differently, whatever their columns: the
   * printed form is a faithful key for a coordinate.
   */
  lemma ToStringInjective(a: Coordinate, b: Coordinate)
    requires Printable(a) && Printable(b) && ToString(a) == ToString(b)
    ensures a == b
  {
    var s := ToString(a);
    assert s[..4] == HeadWord(a[0]) && s[..4] == HeadWord(b[0]);
    assert a[0] == b[0];
    assert s[4..] == Tail(a[1..]) && s[4..] == Tail(b[1..]);
    TailInjective(a[1..], b[1..]);
    assert a == [a[0]] + a[1..] && b == [b[0]] + b[1..];
  }

  /** The formatter prints column 27 as `[`, which the parser does not read back. */
  lemma ColumnPastZ()
    ensures Printable([(1, 1), (1, 27)])
    ensures ToString([(1, 1), (1, 27)]) == "root-[1"
    ensures ParseCoord("root-[1") == None
  {
    var c: Coordinate := [(1, 1), (1, 27)];
    assert c[1..] == [(1, 27)];
    assert Tail([(1, 27)]) == Tail([]) + "-" + RowColToString((1, 27));
    var t := "-[1";
    assert "root-[1"[4..] == t;
    assert LettersSpan(t[1..]) == 0;
  }

  lemma ParseLettersSummed()
    ensures ParseFragments("-AB1") == Some([(1, 3)])
  {
    var t := "-AB1";
    assert t[1..] == "AB1" && t[3..] == "1";
    LettersSpanIs("AB1", 2);
    DigitsSpanIs("1", 1);
    FragmentAtIs(t, 0, 3, 4);
    assert t[1..3] == "AB" && "AB"[..1] == "A" && "A"[..0] == "";
    assert LetterSum("AB") == 3;
    assert t[3..4] == "1" && "1"[..0] == "";
    assert DecimalValue("1") == 1;
    assert t[0..] == t && t[4..] == [];
    assert Fragment(t) == Some(((1, 3), 4));
    assert ParseFragments(t[4..]) == Some([]);
    var one: Coordinate := [(1, 3)];
    assert ParseFragments(t) == Prepend(one, Some([]));
    assert one + [] == one;
  }

  /** Letters are summed: `AB` is column 1 + 2 = 3. */
  lemma LettersAreSummed()
    ensures ParseCoord("root-AB1") == Some([(1, 1), (1, 3)])
  {
    assert "root-AB1"[..4] == "root" && "root-AB1"[4..] == "-AB1";
    ParseLettersSummed();
    var one: Coordinate := [(1, 3)];
    var head: Coordinate := [(1, 1)];
    assert ParseCoord("root-AB1") == Prepend(head, Some(one));
    assert head + one == [(1, 1), (1, 3)];
  }

  /** Column 3 prints back as the single letter `C`. */
  lemma SummedPrintsBack()
    ensures ToString([(1, 1), (1, 3)]) == "root-C1"
  {
    var c: Coordinate := [(1, 1), (1, 3)];
    assert c[1..] == [(1, 3)];
    assert RowColToString((1, 3)) == "C1";
    assert Tail([(1, 3)]) == Tail([]) + "-" + RowColToString((1, 3));
  }

  lemma ExamplePieces()
    ensures RowColToString((1, 1)) == "A1"
    ensures RowColToString((2, 2)) == "B2"
    ensures RowColToString((3, 2)) == "B3"
    ensures NatToString(1) == "1" && NatToString(3) == "3"
  {
  }

  /** `root-A1-B2-B3` survives a round trip. */
  lemma ExampleToString()
    ensures Printable([(1, 1), (1, 1), (2, 2), (3, 2)])
    ensures ToString([(1, 1), (1, 1), (2, 2), (3, 2)]) == "root-A1-B2-B3"
    ensures ParseCoord("root-A1-B2-B3") == Some([(1, 1), (1, 1), (2, 2), (3, 2)])
  {
    var c: Coordinate := [(1, 1), (1, 1), (2, 2), (3, 2)];
    assert Printable(c) && SingleLetterColumns(c[1..]) by {
      assert c[1..] == [(1, 1), (2, 2), (3, 2)];
    }
    ExampleShow();
    ParseShowRoundTrip(c);
  }

  lemma ExampleShow()
    ensures Printable([(1, 1), (1, 1), (2, 2), (3, 2)])
    ensures ToString([(1, 1), (1, 1), (2, 2), (3, 2)]) == "root-A1-B2-B3"
  {
    var c: Coordinate := [(1, 1), (1, 1), (2, 2), (3, 2)];
    ExampleTail();
    assert c[1..] == [(1, 1), (2, 2), (3, 2)];
  }

  lemma ExampleTail()
    ensures ColumnsPrintable([(1, 1), (2, 2), (3, 2)])
    ensures Tail([(1, 1), (2, 2)]) == "-A1-B2"
    ensures Tail([(1, 1), (2, 2), (3, 2)]) == "-A1-B2-B3"
  {
    var cs: Coordinate := [(1, 1), (2, 2), (3, 2)];
    ExamplePieces();
    assert cs[..2] == [(1, 1), (2, 2)] && cs[..2][..1] == [(1, 1)] && cs[..2][..1][..0] == cs[..0];
    assert Tail([(1, 1)]) == "-A1";
  }

  /** The row text of `root-A1-B2-B3` is `root-A1-B2-3`; at the top it is the bare row. */
  lemma ExampleRowToString()
    ensures RowToString([(1, 1), (1, 1), (2, 2), (3, 2)]) == "root-A1-B2-3"
    ensures RowToString(Root) == "1" && RowToString(Meta) == "1"
  {
    var c: Coordinate := [(1, 1), (1, 1), (2, 2), (3, 2)];
    ExampleTail();
    ExamplePieces();
    var p := c[..3];
    assert p == [(1, 1), (1, 1), (2, 2)] && p[1..] == [(1, 1), (2, 2)];
    assert ToString(p) == "root-A1-B2";
  }

  /**
   * `coord_col!` and `coord_row!` read back what `col_to_string` and
   * `row_to_string` print, for a parent of single-letter columns: the column
   * from its one letter, the row from its decimal text.
   */
  lemma MacroRoundTrip(p: Coordinate, rc: RowCol)
    requires Printable(p) && SingleLetterColumns(p[1..]) && rc.1 <= 26 && rc.0 <= U32_MAX
    ensures ParseColMacro(ToString(p), [ColumnLetter(rc.1)]) == Some(Col(p, rc.1))
    ensures ParseRowMacro(ToString(p), NatToString(rc.0)) == Some(Row(p, rc.0))
  {
    ParseShowRoundTrip(p);
    DecimalValueOfNatToString(rc.0);
    var l := [ColumnLetter(rc.1)];
    assert l[..0] == [] && LetterSum(l) == rc.1;
    assert NoUnderflow(l);
  }
}
