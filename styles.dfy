/** The CSS-relevant properties of a cell (src/style.rs). */
module Styles {
  import opened CoordText

  /**
   * `width` and `height` are `f64` in the source; they are stored here as reals
   * and no floating-point arithmetic is modelled on them.
   */
  datatype Style = Style(
    width: real,
    height: real,
    borderColor: string,
    borderCollapse: bool,
    fontWeight: int,
    fontColor: string,
    colSpan: (nat, nat),
    rowSpan: (nat, nat),
    display: bool)

  /** `Style::default`. */
  function DefaultStyle(): Style {
    Style(90.0, 30.0, "grey", false, 400, "black", (0, 0), (0, 0), true)
  }

  const CommentLine: string := "/* border: 1px; NOTE: ignoring Style::border_* for now */\n"

  /** `Style::to_string`: only the collapse flag, the font weight and the colour are printed. */
  function StyleCss(s: Style): string {
    CommentLine
      + "border-collapse: " + (if s.borderCollapse then "collapse" else "inherit") + ";\n"
      + "font-weight: " + IntToString(s.fontWeight) + ";\n"
      + "color: " + s.fontColor + ";\n\n"
  }

  /**
   * The default style prints the text the source's unit test expects:
   * `border-collapse: inherit;`, `font-weight: 400;`, `color: black;`.
   */
  lemma DefaultStyleCss()
    ensures StyleCss(DefaultStyle()) ==
      CommentLine + "border-collapse: inherit;\n" + "font-weight: 400;\n" + "color: black;\n\n"
  {
    WeightText();
    var d := DefaultStyle();
    assert d.fontWeight == 400 && !d.borderCollapse && d.fontColor == "black";
  }

  lemma WeightText()
    ensures IntToString(400) == "400"
  {
    assert NatToString(4) == "4";
    assert NatToString(40) == NatToString(4) + "0";
    assert NatToString(400) == NatToString(40) + "0";
  }

  /**
   * The printed text determines the collapse flag, the weight and the colour:
   * the word after `border-collapse: ` is `collapse` exactly when the flag is set.
   */
  lemma {:induction false} StyleCssCollapseWord(s: Style)
    ensures var t := StyleCss(s);
      var k := |CommentLine| + |"border-collapse: "|;
      |t| >= k + 8 && (t[k..k + 8] == "collapse" <==> s.borderCollapse)
  {
    var w := if s.borderCollapse then "collapse" else "inherit";
    var a, c := CommentLine + "border-collapse: ", "font-weight: " + IntToString(s.fontWeight) + ";\n" + "color: " + s.fontColor + ";\n\n";
    Regroup(a, w, ";\n", "font-weight: ", IntToString(s.fontWeight), ";\n", "color: ", s.fontColor, ";\n\n");
    MiddleSlice(a, w + ";\n", c, 8);
    assert ("inherit" + ";\n")[..8][0] == 'i';
  }

  lemma Regroup(a: string, w: string, x: string, f: string, i: string, y: string, co: string, fc: string, e: string)
    ensures a + w + x + f + i + y + co + fc + e == a + (w + x) + (f + i + y + co + fc + e)
  {
  }

  lemma MiddleSlice(a: string, b: string, c: string, n: nat)
    requires n <= |b|
    ensures |a + b + c| >= |a| + n && (a + b + c)[|a|..|a| + n] == b[..n]
  {
    assert forall i :: 0 <= i < n ==> (a + b + c)[|a| + i] == b[i];
  }
}
