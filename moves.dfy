/**
 * util.rs `move_grammar`: copying a cell, and every cell its grid lists all
 * the way down, from one coordinate to another.  Each copy step also calls
 * `resize`, which rewrites widths and heights from the floating-point row
 * and column tables; the specification therefore fixes every cell only up
 * to its width and height.
 */
module GrammarMoves {
  import opened Coordinates
  import opened Styles
  import opened Grammars

  /** Neither coordinate lies inside (or is) the other. */
  predicate Unrelated(a: Coordinate, b: Coordinate) {
    !IsPrefix(a, b) && !IsPrefix(b, a)
  }

  /** The grid moves the model covers: onto the source itself, or between unrelated trees. */
  predicate Movable(s: Coordinate, d: Coordinate) {
    s == d || Unrelated(s, d)
  }

  /** A grammar with its width and height set aside: the part `resize` never writes. */
  function Unsized(g: Grammar): Grammar {
    g.(style := g.style.(width := 0.0, height := 0.0))
  }

  /** `a` and `b` differ at most in their width and height. */
  predicate SameUpToSize(a: Grammar, b: Grammar) {
    Unsized(a) == Unsized(b)
  }

  /** Agreeing up to size is agreeing on the name, the kind and every style field but the two sizes. */
  lemma SameUpToSizeSpec(a: Grammar, b: Grammar)
    ensures SameUpToSize(a, b) <==>
      a.name == b.name && a.kind == b.kind && a.style.(width := b.style.width, height := b.style.height) == b.style
  {
    if SameUpToSize(a, b) {
      assert Unsized(a).style == Unsized(b).style;
    }
  }

  /**
   * `path` leads from `s` through the map: `s` is a cell, and each next pair
   * is listed by the grid at the cell reached so far.
   */
  predicate Reaches(g: GrammarMap, s: Coordinate, path: seq<RowCol>)
    decreases |path|
  {
    s in g && (path == [] || (g[s].kind.Grid? && path[0] in g[s].kind.subs && Reaches(g, s + [path[0]], path[1..])))
  }

  /** `k` is the copy of a cell of the source tree at `s`, placed under `d`. */
  predicate Copied(g: GrammarMap, s: Coordinate, d: Coordinate, k: Coordinate) {
    IsPrefix(d, k) && Reaches(g, s, k[|d|..])
  }

  lemma {:induction false} ReachedIn(g: GrammarMap, s: Coordinate, path: seq<RowCol>)
    requires Reaches(g, s, path)
    ensures s + path in g
    decreases |path|
  {
    if path != [] {
      ReachedIn(g, s + [path[0]], path[1..]);
      assert s + [path[0]] + path[1..] == s + path;
    } else {
      assert s + path == s;
    }
  }

  /**
   * `r` is `g` after copying the tree at `s` to `d`: a key is in `r` exactly
   * when it was in `g` or is a copy, a copy holds its source cell, and every
   * other cell keeps its grammar, each up to the sizes `resize` writes.
   */
  ghost predicate Moved(g: GrammarMap, s: Coordinate, d: Coordinate, r: GrammarMap) {
    forall k ::
      && (k in r <==> k in g || Copied(g, s, d, k))
      && (k in r && Copied(g, s, d, k) ==> s + k[|d|..] in g && SameUpToSize(r[k], g[s + k[|d|..]]))
      && (k in r && !Copied(g, s, d, k) ==> k in g && SameUpToSize(r[k], g[k]))
  }

  /** The keys of `g` inside the tree at `s`. */
  function Under(g: GrammarMap, s: Coordinate): set<Coordinate> {
    set k | k in g && IsPrefix(s, k)
  }

  /** `g` and `h` have the same keys inside the tree at `s`, with grammars equal up to size. */
  ghost predicate AgreeUnder(g: GrammarMap, h: GrammarMap, s: Coordinate) {
    forall k :: IsPrefix(s, k) ==> (k in g <==> k in h) && (k in g ==> SameUpToSize(g[k], h[k]))
  }

  lemma {:induction false} ReachesFrame(g: GrammarMap, h: GrammarMap, s: Coordinate, path: seq<RowCol>)
    requires AgreeUnder(g, h, s)
    ensures Reaches(g, s, path) <==> Reaches(h, s, path)
    decreases |path|
  {
    assert IsPrefix(s, s);
    if path != [] {
      var c := s + [path[0]];
      assert AgreeUnder(g, h, c) by {
        forall k | IsPrefix(c, k) ensures IsPrefix(s, k) {
          assert k[..|s|] == c[..|s|];
        }
      }
      ReachesFrame(g, h, c, path[1..]);
    }
  }

  /** Copies under `d` whose first step is one of `xs` (and `d` itself). */
  predicate CopiedVia(g: GrammarMap, s: Coordinate, d: Coordinate, xs: seq<RowCol>, k: Coordinate) {
    IsPrefix(d, k) && (|k| == |d| || (k[|d|] in xs && Reaches(g, s + [k[|d|]], k[|d| + 1..])))
  }

  /** The copy after the source cell and the subtrees of the grid's first pairs `xs`. */
  ghost predicate MovedVia(g: GrammarMap, s: Coordinate, d: Coordinate, xs: seq<RowCol>, r: GrammarMap) {
    forall k ::
      && (k in r <==> k in g || CopiedVia(g, s, d, xs, k))
      && (k in r && CopiedVia(g, s, d, xs, k) ==> s + k[|d|..] in g && SameUpToSize(r[k], g[s + k[|d|..]]))
      && (k in r && !CopiedVia(g, s, d, xs, k) ==> k in g && SameUpToSize(r[k], g[k]))
  }

  /** The tree at `s` is disjoint from the tree at `d`. */
  lemma UnrelatedTrees(s: Coordinate, d: Coordinate, k: Coordinate)
    requires Unrelated(s, d) && IsPrefix(s, k)
    ensures !IsPrefix(d, k)
  {
  }

  /**
   * While copying, the source tree keeps its keys and its grammars up to
   * size: it is not written at all between unrelated trees, and a copy onto
   * itself writes each cell's own grammar.
   */
  lemma MovedViaKeepsSource(g: GrammarMap, s: Coordinate, d: Coordinate, xs: seq<RowCol>, r: GrammarMap)
    requires Movable(s, d) && MovedVia(g, s, d, xs, r)
    ensures AgreeUnder(g, r, s)
  {
    forall k | IsPrefix(s, k) ensures (k in g <==> k in r) && (k in g ==> SameUpToSize(g[k], r[k])) {
      if s == d {
        assert s + k[|d|..] == k;
      } else {
        UnrelatedTrees(s, d, k);
      }
    }
  }

  /** The loop's next step: the subtree of pair `x` has been copied too. */
  lemma MovedViaStep(g: GrammarMap, s: Coordinate, d: Coordinate, xs: seq<RowCol>, x: RowCol,
                     r: GrammarMap, r': GrammarMap)
    requires Movable(s, d) && MovedVia(g, s, d, xs, r)
    requires Moved(r, s + [x], d + [x], r')
    ensures MovedVia(g, s, d, xs + [x], r')
  {
    MovedViaKeepsSource(g, s, d, xs, r);
    var sx := s + [x];
    assert AgreeUnder(g, r, sx) by {
      forall k | IsPrefix(sx, k) ensures IsPrefix(s, k) {
        assert k[..|s|] == sx[..|s|];
      }
    }
    forall k ensures
      && (k in r' <==> k in g || CopiedVia(g, s, d, xs + [x], k))
      && (k in r' && CopiedVia(g, s, d, xs + [x], k) ==> s + k[|d|..] in g && SameUpToSize(r'[k], g[s + k[|d|..]]))
      && (k in r' && !CopiedVia(g, s, d, xs + [x], k) ==> k in g && SameUpToSize(r'[k], g[k]))
    {
      MovedViaStepAt(g, s, d, xs, x, r, r', k);
    }
  }

  /** `MovedViaStep` at one key. */
  lemma MovedViaStepAt(g: GrammarMap, s: Coordinate, d: Coordinate, xs: seq<RowCol>, x: RowCol,
                       r: GrammarMap, r': GrammarMap, k: Coordinate)
    requires MovedVia(g, s, d, xs, r) && AgreeUnder(g, r, s) && AgreeUnder(g, r, s + [x])
    requires Moved(r, s + [x], d + [x], r')
    ensures k in r' <==> k in g || CopiedVia(g, s, d, xs + [x], k)
    ensures k in r' && CopiedVia(g, s, d, xs + [x], k) ==> s + k[|d|..] in g && SameUpToSize(r'[k], g[s + k[|d|..]])
    ensures k in r' && !CopiedVia(g, s, d, xs + [x], k) ==> k in g && SameUpToSize(r'[k], g[k])
  {
    CopiedThrough(g, r, s, d, x, k);
    assert CopiedVia(g, s, d, xs + [x], k) <==>
      CopiedVia(g, s, d, xs, k) || (IsPrefix(d, k) && |k| > |d| && k[|d|] == x && Reaches(g, s + [x], k[|d| + 1..]));
  }

  /** A copy made by the recursive call for pair `x`, in the terms of the whole copy. */
  lemma CopiedThrough(g: GrammarMap, r: GrammarMap, s: Coordinate, d: Coordinate, x: RowCol, k: Coordinate)
    requires AgreeUnder(g, r, s + [x]) && AgreeUnder(g, r, s)
    ensures Copied(r, s + [x], d + [x], k) <==>
      IsPrefix(d, k) && |k| > |d| && k[|d|] == x && Reaches(g, s + [x], k[|d| + 1..])
    ensures Copied(r, s + [x], d + [x], k) ==>
      (s + [x]) + k[|d + [x]|..] == s + k[|d|..] && IsPrefix(s, s + k[|d|..])
  {
    var sx, dx := s + [x], d + [x];
    if IsPrefix(d, k) && |k| > |d| && k[|d|] == x {
      assert k[..|dx|] == dx;
      assert k[|dx|..] == k[|d| + 1..];
      ReachesFrame(g, r, sx, k[|d| + 1..]);
      assert k[|d|..] == [x] + k[|dx|..];
    }
  }

  lemma MovedViaStart(g: GrammarMap, s: Coordinate, d: Coordinate)
    requires s in g
    ensures MovedVia(g, s, d, [], g[d := g[s]])
  {
    forall k ensures CopiedVia(g, s, d, [], k) <==> k == d {
      if k == d {
        assert IsPrefix(d, k);
      }
    }
    assert s + d[|d|..] == s;
  }

  lemma MovedViaDone(g: GrammarMap, s: Coordinate, d: Coordinate, r: GrammarMap)
    requires s in g && g[s].kind.Grid? && MovedVia(g, s, d, g[s].kind.subs, r)
    ensures Moved(g, s, d, r)
  {
    forall k | IsPrefix(d, k) ensures Copied(g, s, d, k) <==> CopiedVia(g, s, d, g[s].kind.subs, k) {
      var path := k[|d|..];
      if |k| > |d| {
        assert path[0] == k[|d|] && path[1..] == k[|d| + 1..];
      }
    }
  }

  lemma MovedLeaf(g: GrammarMap, s: Coordinate, d: Coordinate)
    requires s in g && !g[s].kind.Grid?
    ensures Moved(g, s, d, g[d := g[s]])
  {
    forall k ensures Copied(g, s, d, k) <==> k == d {
      if k == d {
        assert IsPrefix(d, k) && k[|d|..] == [];
      }
    }
    assert s + d[|d|..] == s;
  }

  lemma MovedAbsent(g: GrammarMap, s: Coordinate, d: Coordinate)
    requires s !in g
    ensures Moved(g, s, d, g)
  {
  }

  /** The subtree of a listed pair is smaller than the tree, which measures the recursion. */
  lemma UnderShrinks(g: GrammarMap, r: GrammarMap, s: Coordinate, x: RowCol)
    requires s in g && AgreeUnder(g, r, s)
    ensures Under(r, s + [x]) < Under(g, s)
  {
    assert IsPrefix(s, s);
    forall k | k in Under(r, s + [x]) ensures k in Under(g, s) {
      assert k[..|s|] == (s + [x])[..|s|];
    }
    assert s !in Under(r, s + [x]);
  }

  /**
   * `move_grammar` as the source writes it: copy the source cell, then copy
   * the subtree of each pair its grid lists, on the map as it then stands.
   */
  method MoveMap(g: GrammarMap, s: Coordinate, d: Coordinate) returns (r: GrammarMap)
    requires s in g && g[s].kind.Grid? ==> Movable(s, d)
    ensures Moved(g, s, d, r)
    decreases Under(g, s), 1
  {
    if s !in g {
      MovedAbsent(g, s, d);
      return g;
    }
    var sourceGrammar := g[s];
    r := g[d := sourceGrammar];
    if !sourceGrammar.kind.Grid? {
      MovedLeaf(g, s, d);
      return;
    }
    var subs := sourceGrammar.kind.subs;
    MovedViaStart(g, s, d);
    for i := 0 to |subs|
      invariant MovedVia(g, s, d, subs[..i], r)
    {
      TakeOneMore(subs, i);
      r := MoveChild(g, s, d, subs[..i], r, subs[i]);
    }
    assert subs[..|subs|] == subs;
    MovedViaDone(g, s, d, r);
  }

  lemma TakeOneMore(xs: seq<RowCol>, i: nat)
    requires i < |xs|
    ensures xs[..i + 1] == xs[..i] + [xs[i]]
  {
  }

  /** One turn of the loop in `MoveMap`: copy the subtree of pair `x`. */
  method MoveChild(g: GrammarMap, s: Coordinate, d: Coordinate, xs: seq<RowCol>, r: GrammarMap, x: RowCol)
    returns (r': GrammarMap)
    requires s in g && Movable(s, d) && MovedVia(g, s, d, xs, r)
    ensures MovedVia(g, s, d, xs + [x], r')
    decreases Under(g, s), 0
  {
    BeforeChildMove(g, s, d, xs, r, x);
    r' := MoveMap(r, s + [x], d + [x]);
    MovedViaStep(g, s, d, xs, x, r, r');
  }

  lemma PrefixOfChild(a: Coordinate, b: Coordinate, x: RowCol)
    ensures IsPrefix(a + [x], b + [x]) ==> IsPrefix(a, b)
  {
    assert |a| <= |b| ==> (b + [x])[..|a|] == b[..|a|];
  }

  /** Before the recursive call for pair `x`: the call is allowed, and its measure is smaller. */
  lemma BeforeChildMove(g: GrammarMap, s: Coordinate, d: Coordinate, xs: seq<RowCol>, r: GrammarMap, x: RowCol)
    requires s in g && Movable(s, d) && MovedVia(g, s, d, xs, r)
    ensures Movable(s + [x], d + [x]) && Under(r, s + [x]) < Under(g, s)
  {
    MovedViaKeepsSource(g, s, d, xs, r);
    UnderShrinks(g, r, s, x);
    PrefixOfChild(s, d, x);
    PrefixOfChild(d, s, x);
  }

  // Properties of a finished copy.

  /** Outside the destination tree no cell is added or removed, and none changes but in size. */
  lemma MovedKeepsOthers(g: GrammarMap, s: Coordinate, d: Coordinate, r: GrammarMap, k: Coordinate)
    requires Moved(g, s, d, r) && !IsPrefix(d, k)
    ensures k in r <==> k in g
    ensures k in g ==> SameUpToSize(r[k], g[k])
  {
    assert !Copied(g, s, d, k);
  }

  /** No cell of `g` disappears, and the source tree changes at most in size. */
  lemma {:induction false} MovedKeepsSource(g: GrammarMap, s: Coordinate, d: Coordinate, r: GrammarMap)
    requires Unrelated(s, d) && Moved(g, s, d, r)
    ensures g.Keys <= r.Keys
    ensures AgreeUnder(g, r, s)
  {
    forall k | IsPrefix(s, k) ensures (k in g <==> k in r) && (k in g ==> SameUpToSize(g[k], r[k])) {
      UnrelatedTrees(s, d, k);
      MovedKeepsOthers(g, s, d, r, k);
    }
  }

  lemma {:induction false} ReachesExtend(g: GrammarMap, s: Coordinate, q: seq<RowCol>, x: RowCol)
    requires Reaches(g, s, q) && Reaches(g, s + q, [x])
    ensures Reaches(g, s, q + [x])
    decreases |q|
  {
    if q == [] {
      assert s + q == s && q + [x] == [x];
    } else {
      assert s + [q[0]] + q[1..] == s + q;
      ReachesExtend(g, s + [q[0]], q[1..], x);
      assert (q + [x])[0] == q[0] && (q + [x])[1..] == q[1..] + [x];
    }
  }

  /** Each copy holds the cell it copies. */
  lemma CopyHolds(g: GrammarMap, s: Coordinate, d: Coordinate, r: GrammarMap, q: seq<RowCol>)
    requires Moved(g, s, d, r) && Reaches(g, s, q)
    ensures d + q in r && s + q in g && SameUpToSize(r[d + q], g[s + q])
  {
    var k := d + q;
    assert k[..|d|] == d && k[|d|..] == q;
    assert Copied(g, s, d, k);
  }

  /** Past the prefix `q`, every path the source tree has from `s + q` the copy has from `d + q`. */
  lemma {:induction false} CopyReachesFrom(g: GrammarMap, s: Coordinate, d: Coordinate, r: GrammarMap,
                                           q: seq<RowCol>, p: seq<RowCol>)
    requires Moved(g, s, d, r) && Reaches(g, s, q) && Reaches(g, s + q, p)
    ensures Reaches(r, d + q, p)
    decreases |p|
  {
    CopyHolds(g, s, d, r, q);
    if p != [] {
      var x := p[0];
      assert Reaches(g, s + q, [x]) by {
        assert s + q + [x] + [] == s + q + [x];
      }
      ReachesExtend(g, s, q, x);
      assert s + (q + [x]) == s + q + [x] && d + (q + [x]) == d + q + [x];
      CopyReachesFrom(g, s, d, r, q + [x], p[1..]);
    }
  }

  /**
   * After the copy the destination has the whole source tree: every path
   * from the source leads from the destination too, to a cell equal up to size.
   */
  lemma CopyReaches(g: GrammarMap, s: Coordinate, d: Coordinate, r: GrammarMap, p: seq<RowCol>)
    requires Moved(g, s, d, r) && Reaches(g, s, p)
    ensures Reaches(r, d, p)
    ensures d + p in r && s + p in g && SameUpToSize(r[d + p], g[s + p])
  {
    assert Reaches(g, s, []) && s + [] == s && d + [] == d;
    CopyReachesFrom(g, s, d, r, [], p);
    CopyHolds(g, s, d, r, p);
  }

  /** After a copy, both the source and the destination hold the source's cell, up to size. */
  lemma MovedSourceCell(g: GrammarMap, s: Coordinate, d: Coordinate, r: GrammarMap)
    requires s in g && Unrelated(s, d) && Moved(g, s, d, r)
    ensures d in r && SameUpToSize(r[d], g[s]) && s in r && SameUpToSize(r[s], g[s]) && g.Keys <= r.Keys
  {
    assert Reaches(g, s, []) && s + [] == s && d + [] == d;
    CopyReaches(g, s, d, r, []);
    MovedKeepsSource(g, s, d, r);
    assert IsPrefix(s, s);
  }

  /** Moving a tree onto itself keeps every key and every grammar up to size. */
  lemma MovedOntoItself(g: GrammarMap, s: Coordinate, r: GrammarMap)
    requires Moved(g, s, s, r)
    ensures r.Keys == g.Keys
    ensures forall k :: k in g ==> SameUpToSize(r[k], g[k])
  {
    forall k | k in r ensures k in g && SameUpToSize(r[k], g[k]) {
      if Copied(g, s, s, k) {
        assert s + k[|s|..] == k;
      }
    }
  }
}
