/**
 * Saving a session (src/session.rs).  The hand-written `Serialize` impls
 * drive a serde serializer; the model records the calls they make as a tree
 * of serde data-model values (`Enc`), so the struct names, declared lengths,
 * variant indices and field order the source chooses are all visible.  A
 * coordinate is written as its printed text and read back with the
 * coordinate parser.
 */
module SessionCodec {
  import opened Wrappers
  import opened Coordinates
  import opened CoordText
  import opened Styles
  import opened Grammars

  /** One serde data-model value, as the serializer is asked to write it. */
  datatype Enc =
    | Str(s: string)
    | Bool(b: bool)
    | Int(i: int)
    | Float(x: real)
    | List(items: seq<Enc>)
    | Tuple(items: seq<Enc>)
    | TupleStruct(name: string, items: seq<Enc>)
    | NoneVal
    | SomeVal(v: Enc)
    | Struct(name: string, len: nat, fields: seq<(string, Enc)>)
    | NewtypeVariant(name: string, index: nat, variant: string, value: Enc)
    | TupleVariant(name: string, index: nat, variant: string, len: nat, items: seq<Enc>)
    | StructVariant(name: string, index: nat, variant: string, len: nat, fields: seq<(string, Enc)>)
    | MapOf(entries: map<string, Enc>)

  /** The state written to a `.ise` file. */
  datatype Session = Session(title: string, root: Grammar, meta: Grammar, grammars: GrammarMap)

  // ---------------------------------------------------------------------------
  // Coordinates.

  /**
   * `Serialize for Coordinate`: the coordinate's printed text.  Printing
   * fails (the source panics) unless the coordinate starts at `root` or
   * `meta` and every column has a character.
   */
  function EncodeCoordinate(c: Coordinate): (r: Option<Enc>)
    ensures r.Some? <==> Printable(c)
    ensures r.Some? ==> r.value.Str? && |r.value.s| >= 4
  {
    if Printable(c) then Some(Str(ToString(c))) else None
  }

  /** `Deserialize for Coordinate`: a string run through `coord!`. */
  function DecodeCoordinate(e: Enc): (r: Option<Coordinate>)
    ensures r.Some? ==> e.Str? && HasTopHead(r.value)
  {
    if e.Str? then ParseCoord(e.s) else None
  }

  /** Two coordinates are never written as the same text. */
  lemma EncodeCoordinateInjective(a: Coordinate, b: Coordinate)
    requires EncodeCoordinate(a).Some? && EncodeCoordinate(a) == EncodeCoordinate(b)
    ensures a == b
  {
    ToStringInjective(a, b);
  }

  /** A saved coordinate whose columns are single letters reads back as itself. */
  lemma CoordinateRoundTrip(c: Coordinate)
    requires Printable(c) && SingleLetterColumns(c[1..])
    ensures DecodeCoordinate(EncodeCoordinate(c).value) == Some(c)
  {
    ParseShowRoundTrip(c);
  }

  /** Column 27 is saved as `root-[1`, which does not read back. */
  lemma WideColumnNotReloaded()
    ensures EncodeCoordinate([(1, 1), (1, 27)]) == Some(Str("root-[1"))
    ensures DecodeCoordinate(EncodeCoordinate([(1, 1), (1, 27)]).value) == None
  {
    ColumnPastZ();
  }

  // ---------------------------------------------------------------------------
  // Style and interactive widgets.

  /** A `(u32, u32)` or `(NonZeroU32, NonZeroU32)` pair: a two-element tuple. */
  function EncodePair(p: (int, int)): Enc {
    Tuple([Int(p.0), Int(p.1)])
  }

  /**
   * `Serialize for Style`: a struct named `Style` declared with 6 fields,
   * followed by all nine of them.
   */
  function EncodeStyle(s: Style): Enc {
    Struct("Style", 6, [
      ("width", Float(s.width)),
      ("height", Float(s.height)),
      ("border_color", Str(s.borderColor)),
      ("border_collapse", Bool(s.borderCollapse)),
      ("font_weight", Int(s.fontWeight)),
      ("font_color", Str(s.fontColor)),
      ("col_span", EncodePair(s.colSpan)),
      ("row_span", EncodePair(s.rowSpan)),
      ("display", Bool(s.display))])
  }

  /** Every field of the style is written, in declaration order, each under its own name. */
  lemma StyleFieldsInOrder(s: Style)
    ensures |EncodeStyle(s).fields| == 9
    ensures EncodeStyle(s).len + 3 == |EncodeStyle(s).fields|
    ensures forall i, j :: 0 <= i < j < 9 ==> EncodeStyle(s).fields[i].0 != EncodeStyle(s).fields[j].0
  {
  }

  /** Saving a style loses nothing. */
  lemma EncodeStyleInjective(a: Style, b: Style)
    requires EncodeStyle(a) == EncodeStyle(b)
    ensures a == b
  {
    var fa, fb := EncodeStyle(a).fields, EncodeStyle(b).fields;
    assert fa[6].1.items[0] == fb[6].1.items[0] && fa[6].1.items[1] == fb[6].1.items[1];
    assert fa[7].1.items[0] == fb[7].1.items[0] && fa[7].1.items[1] == fb[7].1.items[1];
  }

  /**
   * `Serialize for Interactive`: a button and a slider are tuple variants of
   * `Interactive`; a toggle is a one-field struct whose field is named `Toggle`.
   */
  function EncodeInteractive(x: Interactive): Enc {
    match x
    case Button => TupleVariant("Interactive", 0, "Button", 0, [])
    case Slider(value, min, max) => TupleVariant("Interactive", 1, "Slider", 3, [Float(value), Float(min), Float(max)])
    case Toggle(on) => Struct("Interactive", 1, [("Toggle", Bool(on))])
  }

  /** The Rust name of a widget. */
  function WidgetName(x: Interactive): string {
    match x
    case Button => "Button"
    case Slider(_, _, _) => "Slider"
    case Toggle(_) => "Toggle"
  }

  /**
   * The name a reader of the saved form sees first: the field name of a
   * one-field struct, or the variant name of an enum variant.
   */
  function Tag(e: Enc): string {
    match e
    case Struct(_, _, fields) => if |fields| == 1 then fields[0].0 else ""
    case NewtypeVariant(_, _, variant, _) => variant
    case TupleVariant(_, _, variant, _, _) => variant
    case StructVariant(_, _, variant, _, _) => variant
    case _ => ""
  }

  /** Whichever form the source picks, a widget is tagged with its own variant name. */
  lemma InteractiveTagged(x: Interactive)
    ensures Tag(EncodeInteractive(x)) == WidgetName(x)
  {
  }

  /** Saving a widget loses nothing. */
  lemma EncodeInteractiveInjective(a: Interactive, b: Interactive)
    requires EncodeInteractive(a) == EncodeInteractive(b)
    ensures a == b
  {
  }

  // ---------------------------------------------------------------------------
  // Lookups and kinds.

  /** The coordinate a lookup holds. */
  function LookupCoordinate(l: Lookup): Coordinate {
    match l
    case Cell(target) => target
    case Range(parent, _, _) => parent
    case Row(row) => row.parent
    case Col(col) => col.parent
  }

  /**
   * The derived `Serialize for Lookup`: variants indexed 0 to 3 in
   * declaration order; `Range` is a struct variant with its three fields,
   * `Row` and `Col` wrap the derived tuple structs.
   */
  function EncodeLookup(l: Lookup): (r: Option<Enc>)
    ensures r.Some? <==> Printable(LookupCoordinate(l))
    ensures r.Some? ==> (r.value.NewtypeVariant? || r.value.StructVariant?) && r.value.name == "Lookup"
  {
    var c := EncodeCoordinate(LookupCoordinate(l));
    if c.None? then None
    else
      match l
      case Cell(_) => Some(NewtypeVariant("Lookup", 0, "Cell", c.value))
      case Range(_, start, end) =>
        Some(StructVariant("Lookup", 1, "Range", 3, [("parent", c.value), ("start", EncodePair(start)), ("end", EncodePair(end))]))
      case Row(row) => Some(NewtypeVariant("Lookup", 2, "Row", TupleStruct("Row", [c.value, Int(row.row)])))
      case Col(col) => Some(NewtypeVariant("Lookup", 3, "Col", TupleStruct("Col", [c.value, Int(col.col)])))
  }

  /** Saving a lookup loses nothing. */
  lemma EncodeLookupInjective(a: Lookup, b: Lookup)
    requires EncodeLookup(a).Some? && EncodeLookup(a) == EncodeLookup(b)
    ensures a == b
  {
    var ea, eb := EncodeLookup(a).value, EncodeLookup(b).value;
    match a
    case Cell(_) =>
      EncodeCoordinateInjective(LookupCoordinate(a), LookupCoordinate(b));
    case Range(_, _, _) =>
      assert ea.fields[0].1 == eb.fields[0].1;
      EncodeCoordinateInjective(LookupCoordinate(a), LookupCoordinate(b));
      assert ea.fields[1].1.items[0] == eb.fields[1].1.items[0] && ea.fields[1].1.items[1] == eb.fields[1].1.items[1];
      assert ea.fields[2].1.items[0] == eb.fields[2].1.items[0] && ea.fields[2].1.items[1] == eb.fields[2].1.items[1];
    case Row(_) =>
      assert ea.value.items[0] == eb.value.items[0] && ea.value.items[1] == eb.value.items[1];
      EncodeCoordinateInjective(LookupCoordinate(a), LookupCoordinate(b));
    case Col(_) =>
      assert ea.value.items[0] == eb.value.items[0] && ea.value.items[1] == eb.value.items[1];
      EncodeCoordinateInjective(LookupCoordinate(a), LookupCoordinate(b));
  }

  /** An `Option<Lookup>`: serde's none, or some of the lookup. */
  function EncodeOptionLookup(l: Option<Lookup>): (r: Option<Enc>)
    ensures r.Some? <==> (l.Some? ==> EncodeLookup(l.value).Some?)
  {
    match l
    case None => Some(NoneVal)
    case Some(x) => if EncodeLookup(x).Some? then Some(SomeVal(EncodeLookup(x).value)) else None
  }

  /** A grid's list of pairs: a sequence of two-element tuples. */
  function EncodePairs(subs: seq<RowCol>): (r: seq<Enc>)
    ensures |r| == |subs|
    ensures forall i :: 0 <= i < |subs| ==> r[i] == EncodePair(subs[i])
  {
    if subs == [] then [] else EncodePairs(subs[..|subs| - 1]) + [EncodePair(subs[|subs| - 1])]
  }

  /** Every coordinate of a definition's rule list prints. */
  predicate RulesPrintable(rules: seq<(string, Coordinate)>) {
    forall i :: 0 <= i < |rules| ==> Printable(rules[i].1)
  }

  /** A rule `(String, Coordinate)`: a two-element tuple of the name and the coordinate's text. */
  function EncodeRule(rule: (string, Coordinate)): Enc
    requires Printable(rule.1)
  {
    Tuple([Str(rule.0), EncodeCoordinate(rule.1).value])
  }

  /** A definition's rule list: a sequence of rule tuples. */
  function EncodeRules(rules: seq<(string, Coordinate)>): (r: seq<Enc>)
    requires RulesPrintable(rules)
    ensures |r| == |rules|
    ensures forall i :: 0 <= i < |rules| ==> r[i] == EncodeRule(rules[i])
  {
    if rules == [] then [] else EncodeRules(rules[..|rules| - 1]) + [EncodeRule(rules[|rules| - 1])]
  }

  /** Saving a rule list loses nothing. */
  lemma EncodeRulesInjective(a: seq<(string, Coordinate)>, b: seq<(string, Coordinate)>)
    requires RulesPrintable(a) && RulesPrintable(b) && EncodeRules(a) == EncodeRules(b)
    ensures a == b
  {
    forall i | 0 <= i < |a| ensures a[i] == b[i] {
      var ea, eb := EncodeRule(a[i]), EncodeRule(b[i]);
      assert ea == EncodeRules(a)[i] && eb == EncodeRules(b)[i];
      assert ea.items[0] == eb.items[0] && ea.items[1] == eb.items[1];
      EncodeCoordinateInjective(a[i].1, b[i].1);
    }
  }

  /**
   * A kind the source can save: it is not an editor (the serializer has no
   * arm for it) and every coordinate it holds prints.
   */
  predicate KindSavable(k: Kind) {
    match k
    case Lookup(_, l) => l.Some? ==> Printable(LookupCoordinate(l.value))
    case Defn(_, c, rules) => Printable(c) && RulesPrintable(rules)
    case Editor(_) => false
    case _ => true
  }

  /**
   * `Serialize for Kind`: text, input and grid are one-field structs named
   * `kind` whose field is the variant's name; an interactive kind is tuple
   * variant 0 of `kind`; a lookup and a definition are struct variants 1 and
   * 2 with named fields.
   */
  function EncodeKind(k: Kind): (r: Option<Enc>)
    ensures r.Some? <==> KindSavable(k)
    ensures r.Some? ==> (r.value.Struct? || r.value.TupleVariant? || r.value.StructVariant?) && r.value.name == "kind"
  {
    match k
    case Text(text) => Some(Struct("kind", 1, [("Text", Str(text))]))
    case Input(value) => Some(Struct("kind", 1, [("Input", Str(value))]))
    case Interactive(caption, widget) => Some(TupleVariant("kind", 0, "Interactive", 2, [Str(caption), EncodeInteractive(widget)]))
    case Grid(subs) => Some(Struct("kind", 1, [("Grid", List(EncodePairs(subs)))]))
    case Lookup(raw, lookup) =>
      var l := EncodeOptionLookup(lookup);
      if l.None? then None
      else Some(StructVariant("kind", 1, "Lookup", 2, [("raw_value", Str(raw)), ("lookup", l.value)]))
    case Defn(binding, c, rules) =>
      if Printable(c) && RulesPrintable(rules) then
        Some(StructVariant("kind", 2, "Defn", 3, [("name", Str(binding)), ("coordinate", EncodeCoordinate(c).value), ("rules", List(EncodeRules(rules)))]))
      else None
    case Editor(_) => None
  }

  /** The Rust name of a kind's variant. */
  function KindName(k: Kind): string {
    match k
    case Text(_) => "Text"
    case Input(_) => "Input"
    case Grid(_) => "Grid"
    case Interactive(_, _) => "Interactive"
    case Lookup(_, _) => "Lookup"
    case Defn(_, _, _) => "Defn"
    case Editor(_) => "Editor"
  }

  /** Whichever form the source picks, a saved kind is tagged with its variant name. */
  lemma KindTagged(k: Kind)
    requires KindSavable(k)
    ensures Tag(EncodeKind(k).value) == KindName(k)
  {
  }

  /** An editor cell cannot be saved, whatever its content. */
  lemma EditorNotSaved(content: string)
    ensures EncodeKind(Editor(content)) == None
  {
  }

  /** Saving a kind loses nothing. */
  lemma EncodeKindInjective(a: Kind, b: Kind)
    requires EncodeKind(a).Some? && EncodeKind(a) == EncodeKind(b)
    ensures a == b
  {
    var ea, eb := EncodeKind(a).value, EncodeKind(b).value;
    match a
    case Grid(subs) =>
      assert eb.fields[0].0 == "Grid";
      var xs, ys := EncodePairs(subs), EncodePairs(b.subs);
      assert xs == ys;
      forall i | 0 <= i < |subs| ensures subs[i] == b.subs[i] {
        assert xs[i].items[0] == ys[i].items[0] && xs[i].items[1] == ys[i].items[1];
      }
    case Interactive(_, _) =>
      assert ea.items[1] == eb.items[1];
      EncodeInteractiveInjective(a.widget, b.widget);
    case Lookup(_, l) =>
      assert ea.fields[1].1 == eb.fields[1].1;
      if l.Some? {
        EncodeLookupInjective(l.value, b.lookup.value);
      }
    case Defn(_, _, _) =>
      assert ea.fields[1].1 == eb.fields[1].1;
      EncodeCoordinateInjective(a.defnCoord, b.defnCoord);
      assert ea.fields[2].1 == eb.fields[2].1;
      EncodeRulesInjective(a.rules, b.rules);
    case Text(_) =>
    case Input(_) =>
  }

  // ---------------------------------------------------------------------------
  // Grammars and the session.

  /** `Serialize for Grammar`: a struct named `Grammar` with name, style and kind. */
  function EncodeGrammar(g: Grammar): (r: Option<Enc>)
    ensures r.Some? <==> KindSavable(g.kind)
    ensures r.Some? ==> r.value.Struct? && r.value.len == |r.value.fields|
  {
    var k := EncodeKind(g.kind);
    if k.None? then None
    else Some(Struct("Grammar", 3, [("name", Str(g.name)), ("style", EncodeStyle(g.style)), ("kind", k.value)]))
  }

  /** Saving a grammar loses nothing. */
  lemma EncodeGrammarInjective(a: Grammar, b: Grammar)
    requires EncodeGrammar(a).Some? && EncodeGrammar(a) == EncodeGrammar(b)
    ensures a == b
  {
    var ea, eb := EncodeGrammar(a).value, EncodeGrammar(b).value;
    assert ea.fields[0].1 == eb.fields[0].1 && ea.fields[1].1 == eb.fields[1].1 && ea.fields[2].1 == eb.fields[2].1;
    EncodeStyleInjective(a.style, b.style);
    EncodeKindInjective(a.kind, b.kind);
  }

  /** Every key of the map prints and every grammar in it can be saved. */
  predicate GrammarsSavable(m: GrammarMap) {
    forall k :: k in m ==> Printable(k) && KindSavable(m[k].kind)
  }

  /** On printable keys, the printed text tells keys apart. */
  lemma KeysPrintApart(m: GrammarMap)
    requires GrammarsSavable(m)
    ensures forall a, b :: a in m && b in m && ToString(a) == ToString(b) ==> a == b
  {
    forall a, b | a in m && b in m && ToString(a) == ToString(b) ensures a == b {
      ToStringInjective(a, b);
    }
  }

  /**
   * The `HashMap<Coordinate, Grammar>`: a map from each key's printed text
   * to the key's saved grammar.  The source writes the entries in the hash
   * map's order; the model keeps them as a map.
   */
  function EncodeGrammars(m: GrammarMap): (r: Option<Enc>)
    ensures r.Some? <==> GrammarsSavable(m)
  {
    if GrammarsSavable(m) then
      KeysPrintApart(m);
      Some(MapOf(map k | k in m :: ToString(k) := EncodeGrammar(m[k]).value))
    else None
  }

  /**
   * The saved map has an entry for each cell, under the cell's printed key,
   * holding the cell's saved grammar, and no other entry.
   */
  lemma GrammarsEntries(m: GrammarMap, key: string)
    requires GrammarsSavable(m)
    ensures key in EncodeGrammars(m).value.entries <==> exists k :: k in m && ToString(k) == key
    ensures forall k :: k in m ==> EncodeGrammars(m).value.entries[ToString(k)] == EncodeGrammar(m[k]).value
  {
    KeysPrintApart(m);
  }

  /** No two cells share a saved entry: the saved map has as many entries as the session has cells. */
  lemma GrammarsCount(m: GrammarMap)
    requires GrammarsSavable(m)
    ensures |EncodeGrammars(m).value.entries| == |m|
  {
    var entries := EncodeGrammars(m).value.entries;
    forall key ensures key in entries.Keys <==> key in (set k | k in m.Keys :: ToString(k)) {
      GrammarsEntries(m, key);
    }
    assert entries.Keys == set k | k in m.Keys :: ToString(k);
    PrintedCount(m.Keys);
  }

  /** Distinct printable coordinates print to distinct texts, so printing a set keeps its size. */
  lemma {:induction false} PrintedCount(ks: set<Coordinate>)
    requires forall k :: k in ks ==> Printable(k)
    ensures |set k | k in ks :: ToString(k)| == |ks|
    decreases |ks|
  {
    if ks != {} {
      var k :| k in ks;
      var rest := ks - {k};
      PrintedCount(rest);
      forall j | j in rest ensures ToString(j) != ToString(k) {
        if ToString(j) == ToString(k) {
          ToStringInjective(j, k);
        }
      }
      assert (set j | j in ks :: ToString(j)) == (set j | j in rest :: ToString(j)) + {ToString(k)};
    }
  }

  /**
   * Reading a saved key back: when every key's columns are single letters,
   * each key of the saved map parses to a cell of the session, and the entry
   * holds that cell's saved grammar.
   */
  lemma GrammarsKeysReload(m: GrammarMap, key: string)
    requires GrammarsSavable(m)
    requires forall k :: k in m ==> SingleLetterColumns(k[1..])
    requires key in EncodeGrammars(m).value.entries
    ensures ParseCoord(key).Some? && ParseCoord(key).value in m
    ensures EncodeGrammars(m).value.entries[key] == EncodeGrammar(m[ParseCoord(key).value]).value
  {
    GrammarsEntries(m, key);
    var k :| k in m && ToString(k) == key;
    ParseShowRoundTrip(k);
  }

  /** A session the source can save: both top grammars and every cell can be saved. */
  predicate SessionSavable(s: Session) {
    KindSavable(s.root.kind) && KindSavable(s.meta.kind) && GrammarsSavable(s.grammars)
  }

  /**
   * `Serialize for Session`: a struct named `Session` declared with 3 fields,
   * followed by four: title, root, meta and grammars.
   */
  function EncodeSession(s: Session): (r: Option<Enc>)
    ensures r.Some? <==> SessionSavable(s)
  {
    if SessionSavable(s) then
      Some(Struct("Session", 3, [
        ("title", Str(s.title)),
        ("root", EncodeGrammar(s.root).value),
        ("meta", EncodeGrammar(s.meta).value),
        ("grammars", EncodeGrammars(s.grammars).value)]))
    else None
  }

  /** The session struct declares one field fewer than it writes; the last is the cell map. */
  lemma SessionDeclaresTooFew(s: Session)
    requires SessionSavable(s)
    ensures EncodeSession(s).value.len + 1 == |EncodeSession(s).value.fields|
    ensures EncodeSession(s).value.fields[3].0 == "grammars" && EncodeSession(s).value.fields[3].1.MapOf?
  {
  }

  /** Saving a session loses nothing: two sessions saved alike are the same session. */
  lemma EncodeSessionInjective(a: Session, b: Session)
    requires EncodeSession(a).Some? && EncodeSession(a) == EncodeSession(b)
    ensures a == b
  {
    var ea, eb := EncodeSession(a).value, EncodeSession(b).value;
    assert ea.fields[0].1 == eb.fields[0].1;
    assert ea.fields[1].1 == eb.fields[1].1;
    EncodeGrammarInjective(a.root, b.root);
    assert ea.fields[2].1 == eb.fields[2].1;
    EncodeGrammarInjective(a.meta, b.meta);
    assert ea.fields[3].1 == eb.fields[3].1;
    GrammarsInjective(a.grammars, b.grammars);
  }

  /** Two cell maps saved alike are the same map. */
  lemma GrammarsInjective(a: GrammarMap, b: GrammarMap)
    requires EncodeGrammars(a).Some? && EncodeGrammars(a) == EncodeGrammars(b)
    ensures a == b
  {
    forall k | k in a ensures k in b && a[k] == b[k] {
      SameEntry(a, b, k);
      EncodeGrammarInjective(a[k], b[k]);
    }
    forall k | k in b ensures k in a {
      SameEntry(b, a, k);
    }
  }

  /** A cell of one of two maps saved alike is a cell of the other, saved alike. */
  lemma SameEntry(a: GrammarMap, b: GrammarMap, k: Coordinate)
    requires EncodeGrammars(a).Some? && EncodeGrammars(a) == EncodeGrammars(b) && k in a
    ensures k in b && EncodeGrammar(a[k]).Some? && EncodeGrammar(a[k]) == EncodeGrammar(b[k])
  {
    var key := ToString(k);
    GrammarsEntries(a, key);
    GrammarsEntries(b, key);
    var j :| j in b && ToString(j) == key;
    ToStringInjective(j, k);
  }
}
