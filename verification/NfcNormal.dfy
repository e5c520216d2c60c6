/** The bounded streaming test that a text is in normalization form C. */
module NfcNormal {
  import opened NfcTables
  import opened NfcReorder

  const MAX_TEXT: nat := 59
  const MAX_BUFFER: nat := 32
  const MAX_NONSTARTERS: nat := 30
  const GRAPHEME_JOINER: nat := 0x034F

  //////////////////////////////////////////////////////////////////////////////
  // The quick span
  //////////////////////////////////////////////////////////////////////////////

  /** Where a quick scan that has reached index stops: the end, or the segment holding the first fault. */
  function SpanFrom(runes: seq<Rune>, index: nat, segment: nat, lastClass: nat, nonstarters: nat): (end: nat)
    requires segment <= index <= |runes|
    ensures segment <= end <= |runes|
    decreases |runes| - index
  {
    if index == |runes| then index
    else
      var c := runes[index];
      if c.scalar < 128 then SpanFrom(runes, index + 1, index, 0, 0)
      else if nonstarters + c.leading > 30 then segment
      else if c.leading > 0 && lastClass > c.ccc then segment
      else
        var held := if c.leading == 0 then index else segment;
        if NotQuick(c) then held
        else SpanFrom(runes, index + 1, held, c.ccc, if c.leading == 0 then Trailing(c) else nonstarters + c.leading)
  }

  function QuickEnd(runes: seq<Rune>, start: nat): (end: nat)
    requires start <= |runes|
    ensures start <= end <= |runes|
  {
    SpanFrom(runes, start, start, 0, 0)
  }

  /** _quick_span: the ASCII runs skipped in one go make no difference. */
  method QuickSpan(runes: seq<Rune>, start: nat) returns (end: nat)
    requires start <= |runes|
    ensures end == QuickEnd(runes, start)
  {
    hide NotQuick, Trailing;
    var index, segment, lastClass, nonstarters := start, start, 0, 0;
    while index < |runes|
      invariant start <= segment <= index <= |runes|
      invariant lastClass >= 0 && nonstarters >= 0
      invariant SpanFrom(runes, index, segment, lastClass, nonstarters) == QuickEnd(runes, start)
    {
      var current := runes[index];
      if current.scalar < 128 {
        index, segment, lastClass, nonstarters := index + 1, index, 0, 0;
        while index < |runes| && runes[index].scalar < 128
          invariant start <= segment == index - 1 && index <= |runes|
          invariant SpanFrom(runes, index, index - 1, 0, 0) == QuickEnd(runes, start)
        {
          index, segment := index + 1, index;
        }
      } else {
        nonstarters := nonstarters + current.leading;
        if nonstarters > MAX_NONSTARTERS {
          return segment;
        }
        if current.leading == 0 {
          segment, nonstarters := index, Trailing(current);
        } else if lastClass > current.ccc {
          return segment;
        }
        if NotQuick(current) {
          return segment;
        }
        lastClass := current.ccc;
        index := index + 1;
      }
    }
    return index;
  }

  predicate Boundary(r: Rune) { r.scalar < 128 || r.leading == 0 }

  lemma SpanStep(runes: seq<Rune>, index: nat, segment: nat, lastClass: nat, nonstarters: nat)
    requires segment <= index <= |runes|
    ensures SpanFrom(runes, index, segment, lastClass, nonstarters) ==
      if index == |runes| then index
      else
        var c := runes[index];
        var held := if c.leading == 0 then index else segment;
        if c.scalar < 128 then SpanFrom(runes, index + 1, index, 0, 0)
        else if nonstarters + c.leading > MAX_NONSTARTERS || (c.leading > 0 && lastClass > c.ccc) then segment
        else if NotQuick(c) then held
        else SpanFrom(runes, index + 1, held, c.ccc, if c.leading == 0 then Trailing(c) else nonstarters + c.leading)
  {
    hide NotQuick, Trailing;
  }

  /** A quick span never runs past a rune that fails the quick check, nor past a class that drops, and it
      ends at the end of the text, at a segment boundary, or where it began. */
  lemma {:induction false} SpanIsQuick(runes: seq<Rune>, index: nat, segment: nat, lastClass: nat, nonstarters: nat)
    requires segment <= index <= |runes|
    ensures var end := SpanFrom(runes, index, segment, lastClass, nonstarters);
      && (end < |runes| ==> end == segment || Boundary(runes[end]))
      && (forall j :: index <= j < end && runes[j].scalar >= 128 ==> !NotQuick(runes[j]))
      && (index < end ==> Boundary(runes[index]) || lastClass <= runes[index].ccc)
      && (forall j :: index < j < end && runes[j - 1].scalar >= 128 ==>
            Boundary(runes[j]) || runes[j - 1].ccc <= runes[j].ccc)
    decreases |runes| - index
  {
    hide NotQuick, Trailing, SpanFrom;
    SpanStep(runes, index, segment, lastClass, nonstarters);
    if index < |runes| {
      var c := runes[index];
      var held := if c.leading == 0 then index else segment;
      if c.scalar < 128 {
        SpanIsQuick(runes, index + 1, index, 0, 0);
      } else if nonstarters + c.leading <= MAX_NONSTARTERS {
        if Boundary(c) || lastClass <= c.ccc {
          if !NotQuick(c) {
            SpanIsQuick(runes, index + 1, held, c.ccc, if c.leading == 0 then Trailing(c) else nonstarters + c.leading);
          }
        }
      }
    }
  }

  //////////////////////////////////////////////////////////////////////////////
  // Pieces and segments
  //////////////////////////////////////////////////////////////////////////////

  /** A rune on its way to the buffer; cut says that the buffer is flushed before it. */
  datatype Piece = Piece(rune: Rune, cut: bool)

  function Uncut(runes: seq<Rune>): seq<Piece> {
    seq(|runes|, i requires 0 <= i < |runes| => Piece(runes[i], false))
  }

  function PieceOf(t: UnicodeTables, scalar: nat): Piece {
    var part := RuneOf(t, scalar);
    Piece(part, part.ccc == 0 && !CombinesBackward(part))
  }

  /** A rune taken apart: jamo, itself, or its decomposition. */
  function Pieces(t: UnicodeTables, current: Rune): seq<Piece> {
    if Syllable(current.scalar) then Uncut(Jamo(current.scalar))
    else if !Decomposes(current) then [Piece(current, false)]
    else
      var d := current.decomposition;
      seq(|d|, i requires 0 <= i < |d| => PieceOf(t, d[i]))
  }

  function PiecesOf(t: UnicodeTables, runes: seq<Rune>): seq<Piece> {
    if runes == [] then [] else PiecesOf(t, runes[..|runes| - 1]) + Pieces(t, runes[|runes| - 1])
  }

  /** Finished segments, and the arrivals of the one still open. */
  datatype Segments = Segments(closed: seq<seq<Rune>>, open: seq<Rune>)

  function Close(c: Segments): Segments {
    if c.open == [] then c else Segments(c.closed + [c.open], [])
  }

  function Arrive(c: Segments, p: Piece): Segments {
    var d := if p.cut then Close(c) else c;
    d.(open := d.open + [p.rune])
  }

  function ArriveAll(c: Segments, pieces: seq<Piece>): Segments {
    if pieces == [] then c else Arrive(ArriveAll(c, pieces[..|pieces| - 1]), pieces[|pieces| - 1])
  }

  lemma {:induction false} ArriveAllSplit(c: Segments, a: seq<Piece>, b: seq<Piece>)
    ensures ArriveAll(c, a + b) == ArriveAll(ArriveAll(c, a), b)
  {
    hide Arrive;
    if b == [] {
      assert a + b == a;
    } else {
      ArriveAllSplit(c, a, b[..|b| - 1]);
      assert (a + b)[..|a + b| - 1] == a + b[..|b| - 1];
    }
  }

  /** Everything that the finished segments recompose to. */
  function Emitted(t: UnicodeTables, closed: seq<seq<Rune>>): seq<nat> {
    if closed == [] then []
    else Emitted(t, closed[..|closed| - 1]) + Scalars(Compose(t, Reorder(closed[|closed| - 1])))
  }

  /** No segment outgrows the buffer, and what is finished agrees with the text from the given place on. */
  predicate Agrees(t: UnicodeTables, text: seq<nat>, from: nat, c: Segments)
    requires from <= |text|
  {
    && (forall s :: s in c.closed ==> |s| <= 32)
    && |c.open| <= 32
    && Emitted(t, c.closed) <= text[from..]
  }

  lemma DisagreesForGood(t: UnicodeTables, text: seq<nat>, from: nat, c: Segments, p: Piece)
    requires from <= |text| && Agrees(t, text, from, Arrive(c, p))
    ensures Agrees(t, text, from, c)
  {
    var d := Close(c);
    if p.cut && c.open != [] {
      assert d.closed[..|d.closed| - 1] == c.closed;
      assert c.open in d.closed;
      assert Emitted(t, c.closed) <= Emitted(t, d.closed);
    }
  }

  lemma {:induction false} DisagreesAll(t: UnicodeTables, text: seq<nat>, from: nat, c: Segments, pieces: seq<Piece>)
    requires from <= |text| && Agrees(t, text, from, ArriveAll(c, pieces))
    ensures Agrees(t, text, from, c)
  {
    hide Arrive, Agrees;
    if pieces != [] {
      DisagreesForGood(t, text, from, ArriveAll(c, pieces[..|pieces| - 1]), pieces[|pieces| - 1]);
      DisagreesAll(t, text, from, c, pieces[..|pieces| - 1]);
    }
  }

  //////////////////////////////////////////////////////////////////////////////
  // The whole test
  //////////////////////////////////////////////////////////////////////////////

  /** How far one slow pass reads, the count it leaves, and whether a grapheme joiner ends it. */
  datatype Pass = Pass(end: nat, nonstarters: nat, joiner: bool)

  function PassFrom(runes: seq<Rune>, cursor: nat, nonstarters: nat): (p: Pass)
    requires cursor <= |runes|
    ensures cursor <= p.end <= |runes|
    ensures p.end < |runes| ==> p.nonstarters <= 3
    decreases |runes| - cursor
  {
    if cursor == |runes| then Pass(cursor, nonstarters, false)
    else if nonstarters + runes[cursor].leading > 30 then Pass(cursor, 0, true)
    else if runes[cursor].leading == 0 then Pass(cursor, Trailing(runes[cursor]), false)
    else PassFrom(runes, cursor + 1, nonstarters + runes[cursor].leading)
  }

  function Opening(r: Rune, nonstarters: nat): nat {
    if r.leading == 0 then Trailing(r) else nonstarters + r.leading
  }

  function Joined(pieces: seq<Piece>, joiner: bool): seq<Piece> {
    if joiner then pieces + [Piece(Plain(0x034F), false)] else pieces
  }

  function PassSegments(t: UnicodeTables, runes: seq<Rune>, cursor: nat, p: Pass): Segments
    requires cursor <= p.end <= |runes|
  {
    Close(ArriveAll(Segments([], []), Joined(PiecesOf(t, runes[cursor..p.end]), p.joiner)))
  }

  /** Every slow pass takes its runes apart into segments that recompose to the text it read from. */
  predicate Normal(t: UnicodeTables, runes: seq<Rune>, cursor: nat, nonstarters: nat)
    requires cursor <= |runes|
    decreases |runes| - cursor
  {
    cursor == |runes| ||
    (var p := PassFrom(runes, cursor + 1, Opening(runes[cursor], nonstarters));
     Agrees(t, Scalars(runes), cursor, PassSegments(t, runes, cursor, p)) &&
     Normal(t, runes, QuickEnd(runes, p.end), p.nonstarters))
  }

  function RunesOf(t: UnicodeTables, text: seq<codepoint>): seq<Rune> {
    seq(|text|, i requires 0 <= i < |text| => RuneOf(t, text[i]))
  }

  predicate NormalText(t: UnicodeTables, text: seq<codepoint>) {
    var runes := RunesOf(t, text);
    Normal(t, runes, QuickEnd(runes, 0), 0)
  }

  predicate Surrogate(x: nat) { 0xD800 <= x <= 0xDFFF }

  //////////////////////////////////////////////////////////////////////////////
  // Texts that always pass
  //////////////////////////////////////////////////////////////////////////////

  lemma {:induction false} AsciiSpan(runes: seq<Rune>, index: nat, segment: nat, lastClass: nat, nonstarters: nat)
    requires segment <= index <= |runes|
    requires forall r :: r in runes ==> r.scalar < 128
    ensures SpanFrom(runes, index, segment, lastClass, nonstarters) == |runes|
    decreases |runes| - index
  {
    if index < |runes| {
      assert runes[index] in runes;
      AsciiSpan(runes, index + 1, index, 0, 0);
    }
  }

  lemma AsciiIsNormal(t: UnicodeTables, text: seq<codepoint>)
    requires forall x :: x in text ==> x < 128
    ensures NormalText(t, text)
  {
    hide RuneOf, Normal;
    var runes := RunesOf(t, text);
    forall r | r in runes ensures r.scalar < 128 {
      var i :| 0 <= i < |runes| && runes[i] == r;
      assert text[i] in text && r == RuneOf(t, text[i]);
      RuneScalar(t, text[i]);
    }
    EndIsNormal(t, runes);
    AsciiSpan(RunesOf(t, text), 0, 0, 0, 0);
  }

  lemma RuneScalar(t: UnicodeTables, scalar: nat)
    ensures RuneOf(t, scalar).scalar == scalar
  {
  }

  lemma EndIsNormal(t: UnicodeTables, runes: seq<Rune>)
    ensures Normal(t, runes, |runes|, 0)
  {
  }

  /** A syllable alone arrives as its jamo. */
  lemma SyllableArrives(t: UnicodeTables, r: Rune)
    requires Syllable(r.scalar)
    ensures ArriveAll(Segments([], []), PiecesOf(t, [r])) == Segments([], Jamo(r.scalar))
  {
    hide Jamo;
    var js := Jamo(r.scalar);
    assert PiecesOf(t, [r]) == Uncut(js) by {
      assert [r][..0] == [];
      assert PiecesOf(t, []) + Uncut(js) == Uncut(js);
    }
    UncutAll(js);
  }

  /** The jamo of a syllable recompose to it. */
  lemma SyllableEmits(t: UnicodeTables, x: nat)
    requires Syllable(x)
    ensures Emitted(t, [Jamo(x)]) == [x]
  {
    hide Compose, Jamo, Reorder, Scalars, Plains;
    var js := Jamo(x);
    JamoShape(x);
    StartersStay(js);
    assert AllJamo([x]) == js by {
      assert [x][..0] == [];
      assert AllJamo([]) + js == js;
    }
    HangulRoundTrip(t, [x]);
    PlainScalar(x);
    assert [js][..0] == [] && Emitted(t, []) + [x] == [x];
  }

  lemma PlainScalar(x: nat)
    ensures Scalars(Plains([x])) == [x]
  {
  }

  /** A syllable that begins a pass is read alone and recomposes to itself. */
  lemma SyllablePass(t: UnicodeTables, runes: seq<Rune>, cursor: nat, p: Pass)
    requires cursor < |runes| && Syllable(runes[cursor].scalar)
    requires p.end == cursor + 1 && !p.joiner
    ensures Agrees(t, Scalars(runes), cursor, PassSegments(t, runes, cursor, p))
  {
    hide Jamo, Emitted, PiecesOf, ArriveAll;
    var x := runes[cursor].scalar;
    assert runes[cursor..p.end] == [runes[cursor]];
    SyllableArrives(t, runes[cursor]);
    SyllableEmits(t, x);
    JamoShape(x);
    assert PassSegments(t, runes, cursor, p) == Segments([Jamo(x)], []);
    assert Scalars(runes)[cursor..][0] == x;
  }

  lemma {:induction false} UncutAll(rs: seq<Rune>)
    ensures ArriveAll(Segments([], []), Uncut(rs)) == Segments([], rs)
  {
    if rs != [] {
      var front := rs[..|rs| - 1];
      UncutAll(front);
      assert Uncut(rs)[..|rs| - 1] == Uncut(front);
      assert front + [rs[|rs| - 1]] == rs;
    }
  }

  lemma {:induction false} SyllablesNormal(t: UnicodeTables, runes: seq<Rune>, cursor: nat, nonstarters: nat)
    requires forall r :: r in runes ==> Syllable(r.scalar) && r.leading == 0
    requires cursor <= |runes|
    ensures Normal(t, runes, cursor, nonstarters)
    decreases |runes| - cursor
  {
    hide Agrees, PassSegments, Syllable, QuickEnd;
    if cursor < |runes| {
      assert runes[cursor] in runes;
      var p := PassFrom(runes, cursor + 1, Opening(runes[cursor], nonstarters));
      if cursor + 1 < |runes| {
        assert runes[cursor + 1] in runes;
      }
      SyllablePass(t, runes, cursor, p);
      SyllablesNormal(t, runes, QuickEnd(runes, p.end), p.nonstarters);
    }
  }

  /** Precomposed Hangul that the tables list as starters is normal, whatever else the tables say. */
  lemma HangulIsNormal(t: UnicodeTables, text: seq<codepoint>)
    requires forall x :: x in text ==> Syllable(x) && RuneOf(t, x).leading == 0
    ensures NormalText(t, text)
  {
    hide Lookup, Normal;
    var runes := RunesOf(t, text);
    forall r | r in runes ensures Syllable(r.scalar) && r.leading == 0 {
      var i :| 0 <= i < |runes| && runes[i] == r;
      assert text[i] in text;
    }
    SyllablesNormal(t, runes, QuickEnd(runes, 0), 0);
  }
}
