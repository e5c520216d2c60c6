/** What recomposition through the table does: a combining rune joins its starter unless something stands between. */
module NfcComposition {
  import opened NfcTables
  import opened NfcReorder
  import opened NfcNormal

  /** The table composes a and b, both in the first plane, to c. */
  predicate Composes(t: UnicodeTables, a: nat, b: nat, c: nat) {
    a < 0x10000 && b < 0x10000 && 0x10000 * a + b in t.compositions && t.compositions[0x10000 * a + b] == c
  }

  /** The table has nothing for a and b. */
  predicate Apart(t: UnicodeTables, a: nat, b: nat) {
    a < 0x10000 && b < 0x10000 && 0x10000 * a + b !in t.compositions
  }

  predicate JamoLike(x: nat) { 0x1100 <= x <= 0x11FF }

  /** A rune that joins what stands before it, but no Hangul. */
  predicate Mark(r: Rune) { CombinesBackward(r) && !JamoLike(r.scalar) }

  lemma PairKey(t: UnicodeTables, a: nat, b: nat)
    requires a < 0x10000 && b < 0x10000
    ensures var k := 0x10000 * a + b; PairOf(t, a, b) == if k in t.compositions then t.compositions[k] else 0
  {
  }

  lemma RunTwo(t: UnicodeTables, c: Composing, a: Rune, b: Rune)
    requires c.Valid()
    ensures ComposeAll(t, c, [a]) == ComposeStep(t, c, a)
    ensures ComposeAll(t, c, [a, b]) == ComposeStep(t, ComposeStep(t, c, a), b)
  {
    hide ComposeStep;
    assert [a][..0] == [] && [a, b][..1] == [a];
    assert ComposeAll(t, c, []) == c;
  }

  lemma ComposeTwo(t: UnicodeTables, a: Rune, b: Rune)
    ensures Compose(t, [a, b]) == ComposeStep(t, Composing([a], 0, false), b).result
  {
    assert [a, b][1..] == [b];
    RunTwo(t, Composing([a], 0, false), b, b);
  }

  lemma ComposeThree(t: UnicodeTables, a: Rune, b: Rune, c: Rune)
    ensures Compose(t, [a, b, c]) == ComposeStep(t, ComposeStep(t, Composing([a], 0, false), b), c).result
  {
    hide ComposeStep;
    assert [a, b, c][1..] == [b, c];
    RunTwo(t, Composing([a], 0, false), b, c);
  }

  /** Two runes become the one that the table names, and stay two when it names none. */
  lemma PairComposes(t: UnicodeTables, a: Rune, b: Rune, c: nat)
    requires Mark(b)
    ensures Composes(t, a.scalar, b.scalar, c) ==> Compose(t, [a, b]) == [Plain(c)]
    ensures Apart(t, a.scalar, b.scalar) ==> Compose(t, [a, b]) == [a, b]
  {
    hide PairOf;
    ComposeTwo(t, a, b);
    if a.scalar < 0x10000 && b.scalar < 0x10000 { PairKey(t, a.scalar, b.scalar); }
  }

  /** What stands between a starter and a mark blocks it exactly when it has the same or a higher class. */
  lemma BetweenBlocks(t: UnicodeTables, a: Rune, x: Rune, b: Rune, c: nat)
    requires a.ccc == 0 && x.ccc > 0 && Mark(b) && !JamoLike(x.scalar) && Composes(t, a.scalar, b.scalar, c)
    requires !CombinesBackward(x) || Apart(t, a.scalar, x.scalar)
    ensures Compose(t, [a, x, b]) == if x.ccc >= b.ccc then [a, x, b] else [Plain(c), x]
  {
    hide PairOf;
    ComposeThree(t, a, x, b);
    PairKey(t, a.scalar, b.scalar);
    if CombinesBackward(x) { PairKey(t, a.scalar, x.scalar); }
  }

  /** A mark joins the last starter, not an earlier one. */
  lemma LastStarterTakes(t: UnicodeTables, a: Rune, s: Rune, b: Rune, c: nat)
    requires s.ccc == 0 && !CombinesBackward(s) && !JamoLike(s.scalar) && Mark(b)
    requires Composes(t, s.scalar, b.scalar, c)
    ensures Compose(t, [a, s, b]) == [a, Plain(c)]
  {
    hide PairOf;
    ComposeThree(t, a, s, b);
    PairKey(t, s.scalar, b.scalar);
  }

  /** A composite takes further marks. */
  lemma CompositeTakes(t: UnicodeTables, a: Rune, b: Rune, c: nat, d: Rune, e: nat)
    requires Mark(b) && Mark(d) && Composes(t, a.scalar, b.scalar, c) && Composes(t, c, d.scalar, e)
    ensures Compose(t, [a, b, d]) == [Plain(e)]
  {
    hide PairOf;
    ComposeThree(t, a, b, d);
    PairKey(t, a.scalar, b.scalar);
    PairKey(t, c, d.scalar);
  }

  //////////////////////////////////////////////////////////////////////////////
  // Composites and their decompositions
  //////////////////////////////////////////////////////////////////////////////

  /** x decomposes to a starter and a mark, and the table composes them to x. */
  predicate Composite(t: UnicodeTables, x: codepoint) {
    var d := RuneOf(t, x).decomposition;
    && |d| == 2 && Composes(t, d[0], d[1], x)
    && RuneOf(t, d[0]).ccc == 0 && !CombinesBackward(RuneOf(t, d[0])) && !JamoLike(d[0])
    && CombinesBackward(RuneOf(t, d[1])) && !JamoLike(d[1])
  }

  function PairsOf(t: UnicodeTables, xs: seq<codepoint>): seq<Rune>
    requires forall x :: x in xs ==> Composite(t, x)
  {
    if xs == [] then []
    else
      assert xs[|xs| - 1] in xs && forall x :: x in xs[..|xs| - 1] ==> x in xs;
      PairsOf(t, xs[..|xs| - 1]) + [PairFirst(t, xs[|xs| - 1]), PairSecond(t, xs[|xs| - 1])]
  }

  /** After a starter nothing combines with, the mark of its pair makes it the composite. */
  lemma PairStep(t: UnicodeTables, c: Composing, x: codepoint)
    requires c.Valid() && !c.hangul && Composite(t, x)
    requires var d := RuneOf(t, x).decomposition; c.result[|c.result| - 1] == RuneOf(t, d[0])
    ensures var d := RuneOf(t, x).decomposition;
      var next := ComposeStep(t, c, RuneOf(t, d[1]));
      !next.hangul && next.result == c.result[..|c.result| - 1] + [Plain(x)]
  {
    hide PairOf, Lookup;
    var d := RuneOf(t, x).decomposition;
    PairKey(t, d[0], d[1]);
    CompositionPositive(t, d[0], d[1]);
    var last := |c.result| - 1;
    assert c.result[last := Plain(x)] == c.result[..last] + [Plain(x)];
  }

  lemma CompositionPositive(t: UnicodeTables, a: nat, b: nat)
    ensures 0x10000 * a + b in t.compositions ==> t.compositions[0x10000 * a + b] > 0
  {
  }

  lemma StarterStep(t: UnicodeTables, c: Composing, s: Rune)
    requires c.Valid() && !c.hangul && !CombinesBackward(s) && !JamoLike(s.scalar)
    ensures var next := ComposeStep(t, c, s); !next.hangul && next.result == c.result + [s]
  {
  }

  /** Recomposing the pairs of composites gives the composites back. */
  lemma {:induction false} CompositeRoundTrip(t: UnicodeTables, xs: seq<codepoint>)
    requires forall x :: x in xs ==> Composite(t, x)
    ensures Compose(t, PairsOf(t, xs)) == Plains(xs)
  {
    hide ComposeStep, ComposeAll, Lookup;
    if xs != [] {
      var r := PairsOf(t, xs);
      PairsRun(t, xs);
      assert r[1..|r|] == r[1..];
    }
  }

  lemma {:induction false} PairsRun(t: UnicodeTables, xs: seq<codepoint>)
    requires xs != [] && forall x :: x in xs ==> Composite(t, x)
    ensures var r := PairsOf(t, xs);
      && r != []
      && (var end := ComposeAll(t, Composing([r[0]], 0, false), r[1..]);
          !end.hangul && end.result == Plains(xs))
  {
    hide ComposeStep, Composite, RuneOf;
    var front, x := xs[..|xs| - 1], xs[|xs| - 1];
    assert x in xs && forall y :: y in front ==> y in xs;
    var a, b := PairFirst(t, x), PairSecond(t, x);
    PairFacts(t, x);
    var r := PairsOf(t, xs);
    if front == [] {
      assert r == [a, b];
      var start := Composing([a], 0, false);
      assert r[1..] == [b];
      PairStep(t, start, x);
      RunTwo(t, start, b, b);
    } else {
      PairsRun(t, front);
      var f := PairsOf(t, front);
      assert r == f + [a, b] && r[1..] == f[1..] + [a, b];
      var start := Composing([f[0]], 0, false);
      ComposeAllSplit(t, start, f[1..], [a, b]);
      var mid := ComposeAll(t, start, f[1..]);
      StarterStep(t, mid, a);
      var next := ComposeStep(t, mid, a);
      PairStep(t, next, x);
      RunTwo(t, mid, a, b);
    }
  }

  function PairFirst(t: UnicodeTables, x: codepoint): Rune
    requires Composite(t, x)
  {
    RuneOf(t, RuneOf(t, x).decomposition[0])
  }

  function PairSecond(t: UnicodeTables, x: codepoint): Rune
    requires Composite(t, x)
  {
    RuneOf(t, RuneOf(t, x).decomposition[1])
  }

  lemma PairFacts(t: UnicodeTables, x: codepoint)
    requires Composite(t, x)
    ensures !CombinesBackward(PairFirst(t, x)) && !JamoLike(PairFirst(t, x).scalar)
  {
    hide Lookup;
  }

  //////////////////////////////////////////////////////////////////////////////
  // Whole texts
  //////////////////////////////////////////////////////////////////////////////

  /** The two runes of a decomposed text end up in one segment, as they are. */
  lemma PairSegments(t: UnicodeTables, a: Rune, b: Rune)
    requires !Syllable(a.scalar) && !Syllable(b.scalar) && !Decomposes(a) && !Decomposes(b)
    ensures ArriveAll(Segments([], []), PiecesOf(t, [a, b])) == Segments([], [a, b])
  {
    assert [a, b][..1] == [a] && [a][..0] == [];
    var pa, pb := Piece(a, false), Piece(b, false);
    assert PiecesOf(t, []) == [] && PiecesOf(t, [a]) == [] + [pa] && PiecesOf(t, [a, b]) == [pa] + [pb];
    assert [pa, pb][..1] == [pa] && [pa][..0] == [];
    hide Pieces;
    assert ArriveAll(Segments([], []), []) == Segments([], []);
    assert ArriveAll(Segments([], []), [pa]) == Segments([], [a]);
  }

  lemma PairReorders(a: Rune, b: Rune)
    requires a.ccc == 0
    ensures Reorder([a, b]) == [a, b]
  {
    assert [a, b][..1] == [a] && [a][..0] == [];
    assert Reorder([a]) == Insert(Reorder([]), a);
  }

  lemma SmallCounts(t: UnicodeTables, a: codepoint, b: codepoint)
    ensures RuneOf(t, b).leading <= 3 && Opening(RuneOf(t, a), 0) <= 3
  {
    hide Lookup;
  }

  lemma PairSpan(t: UnicodeTables, a: Rune, b: Rune)
    requires a.leading == 0 && !NotQuick(a) && b.leading > 0 && NotQuick(b) && b.scalar >= 128
    ensures QuickEnd([a, b], 0) == 0
  {
    hide NotQuick, Trailing;
    SpanStep([a, b], 0, 0, 0, 0);
    SpanStep([a, b], 1, 0, 0, 0);
    SpanStep([a, b], 1, 0, a.ccc, Trailing(a));
  }

  lemma PairPass(a: Rune, b: Rune, opening: nat)
    requires 0 < b.leading <= 3 && opening <= 3
    ensures PassFrom([a, b], 1, opening) == Pass(2, opening + b.leading, false)
  {
    hide Trailing;
    assert PassFrom([a, b], 2, opening + b.leading) == Pass(2, opening + b.leading, false);
  }

  /** What a pass reads that falls into one segment. */
  lemma OneSegment(t: UnicodeTables, runes: seq<Rune>, p: Pass, s: seq<Rune>, c: nat)
    requires p.end == |runes| && !p.joiner && s != [] && |s| <= MAX_BUFFER
    requires ArriveAll(Segments([], []), PiecesOf(t, runes)) == Segments([], s) && Compose(t, Reorder(s)) == [Plain(c)]
    ensures Agrees(t, Scalars(runes), 0, PassSegments(t, runes, 0, p)) <==> [c] <= Scalars(runes)
  {
    hide Compose, Reorder, PiecesOf, ArriveAll;
    assert runes[0..p.end] == runes && Scalars(runes)[0..] == Scalars(runes);
    assert [s][..0] == [] && Emitted(t, []) == [];
    assert Emitted(t, [s]) == [c];
  }

  /** A starter and a mark that fails the quick check, which the table composes to something else, are no normal
      text. */
  lemma DecomposedNotNormal(t: UnicodeTables, a: codepoint, b: codepoint, c: nat)
    requires Composes(t, a, b, c) && c != a
    requires var r := RuneOf(t, a); r.leading == 0 && r.ccc == 0 && !NotQuick(r) && !Decomposes(r) && !Syllable(a)
    requires var r := RuneOf(t, b);
      r.leading > 0 && NotQuick(r) && !Decomposes(r) && Mark(r) && b >= 128 && !Syllable(b)
    ensures !NormalText(t, [a, b])
  {
    hide Lookup, Compose, Reorder, PiecesOf, ArriveAll, Agrees, PassSegments, PassFrom, QuickEnd, NotQuick, Decomposes,
      Composes, Mark, Opening;
    var ra, rb := RuneOf(t, a), RuneOf(t, b);
    assert RunesOf(t, [a, b]) == [ra, rb];
    PairSpan(t, ra, rb);
    SmallCounts(t, a, b);
    PairPass(ra, rb, Opening(ra, 0));
    PairSegments(t, ra, rb);
    PairReorders(ra, rb);
    PairComposes(t, ra, rb, c);
    OneSegment(t, [ra, rb], PassFrom([ra, rb], 1, Opening(ra, 0)), [ra, rb], c);
    assert Scalars([ra, rb])[0] == a;
  }

  /** A composite arrives as its pair. */
  lemma CompositeArrives(t: UnicodeTables, x: codepoint)
    requires Composite(t, x) && !Syllable(x) && Decomposes(RuneOf(t, x))
    ensures ArriveAll(Segments([], []), PiecesOf(t, [RuneOf(t, x)]))
            == Segments([], [PairFirst(t, x), PairSecond(t, x)])
  {
    hide Lookup, Decomposes, CombinesBackward, PairOf;
    var r := RuneOf(t, x);
    var d := r.decomposition;
    var a, b := PieceOf(t, d[0]), PieceOf(t, d[1]);
    assert [r][..0] == [] && PiecesOf(t, []) == [];
    assert Pieces(t, r) == [a, b];
    assert PiecesOf(t, [r]) == [a, b];
    assert [a, b][..1] == [a] && [a][..0] == [];
    assert ArriveAll(Segments([], []), []) == Segments([], []);
    assert ArriveAll(Segments([], []), [a]) == Segments([], [a.rune]);
  }

  lemma CompositePair(t: UnicodeTables, x: codepoint)
    requires Composite(t, x)
    ensures Reorder([PairFirst(t, x), PairSecond(t, x)]) == [PairFirst(t, x), PairSecond(t, x)]
    ensures Compose(t, [PairFirst(t, x), PairSecond(t, x)]) == [Plain(x)]
  {
    hide Lookup, Compose, Reorder;
    PairReorders(PairFirst(t, x), PairSecond(t, x));
    PairComposes(t, PairFirst(t, x), PairSecond(t, x), x);
  }

  lemma AlonePass(r: Rune, opening: nat)
    ensures PassFrom([r], 1, opening) == Pass(1, opening, false)
  {
  }

  /** A composite that is taken apart passes: its pair recomposes to it. */
  lemma CompositeIsNormal(t: UnicodeTables, x: codepoint)
    requires Composite(t, x) && !Syllable(x) && Decomposes(RuneOf(t, x))
    ensures NormalText(t, [x])
  {
    hide Lookup, Compose, Reorder, PiecesOf, ArriveAll, Agrees, PassSegments, PassFrom, QuickEnd, Decomposes, Composite,
      Opening;
    var r := RuneOf(t, x);
    assert RunesOf(t, [x]) == [r];
    if QuickEnd([r], 0) == 0 {
      AlonePass(r, Opening(r, 0));
      CompositeArrives(t, x);
      CompositePair(t, x);
      OneSegment(t, [r], PassFrom([r], 1, Opening(r, 0)), [PairFirst(t, x), PairSecond(t, x)], x);
      assert Scalars([r]) == [x];
      assert QuickEnd([r], 1) == 1 && Normal(t, [r], 1, Opening(r, 0));
      assert Normal(t, [r], 0, 0);
    }
  }
}
