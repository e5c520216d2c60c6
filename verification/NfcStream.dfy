/** The streaming normalizer: its buffer, its counters, and the comparison cursor, updated in place. */
module NfcStream {
  import opened NfcTables
  import opened NfcReorder
  import opened NfcNormal

  /** Whether the next segment agrees depends only on the text at the comparison cursor. */
  lemma EmitNext(t: UnicodeTables, text: seq<nat>, from: nat, at: nat, closed: seq<seq<Rune>>, s: seq<Rune>)
    requires from <= at <= |text| && Emitted(t, closed) == text[from..at]
    ensures var x := Scalars(Compose(t, Reorder(s)));
      && (Emitted(t, closed + [s]) <= text[from..] <==> x <= text[at..])
      && (x <= text[at..] ==> Emitted(t, closed + [s]) == text[from..at + |x|])
  {
    hide Compose, Reorder, Emitted, Scalars;
    EmitStep(t, closed, s);
    Continues(text, from, at, Emitted(t, closed), Scalars(Compose(t, Reorder(s))));
  }

  lemma EmitStep(t: UnicodeTables, closed: seq<seq<Rune>>, s: seq<Rune>)
    ensures Emitted(t, closed + [s]) == Emitted(t, closed) + Scalars(Compose(t, Reorder(s)))
  {
    assert (closed + [s])[..|closed|] == closed;
    hide Compose, Reorder, Scalars;
  }

  /** What continues the text read so far is what follows the place reached. */
  lemma Continues(text: seq<nat>, from: nat, at: nat, done: seq<nat>, x: seq<nat>)
    requires from <= at <= |text| && done == text[from..at]
    ensures done + x <= text[from..] <==> x <= text[at..]
    ensures x <= text[at..] ==> done + x == text[from..at + |x|]
  {
    assert text[from..] == done + text[at..];
    if done + x <= text[from..] {
      assert (done + x)[|done|..] == x && text[from..][|done|..|done| + |x|] == text[at..][..|x|];
    }
    if x <= text[at..] {
      assert text[at..][..|x|] == text[at..at + |x|];
    }
  }

  lemma EmptySegment(t: UnicodeTables)
    ensures Compose(t, Reorder([])) == []
  {
  }

  class Normalizer {
    const tables: UnicodeTables
    const runes: seq<Rune>
    var buffer: seq<Rune>
    var nonstarters: nat
    var comparison: nat
    /** Where the current pass began, and the segments it has cut so far. */
    ghost var from: nat
    ghost var segments: Segments

    ghost predicate Valid()
      reads `buffer, `comparison, `from, `segments
    {
      && from <= comparison <= |runes|
      && buffer == Reorder(segments.open)
      && Agrees(tables, Scalars(runes), from, segments)
      && Emitted(tables, segments.closed) == Scalars(runes)[from..comparison]
    }

    constructor (tables: UnicodeTables, runes: seq<Rune>)
      ensures this.tables == tables && this.runes == runes
      ensures Valid() && buffer == [] && nonstarters == 0 && segments == Segments([], [])
    {
      this.tables, this.runes := tables, runes;
      buffer, nonstarters, comparison := [], 0, 0;
      from, segments := 0, Segments([], []);
    }

    lemma BufferBound()
      requires Valid()
      ensures |buffer| == |segments.open| <= 32
    {
      ReorderLength(segments.open);
    }

    /** Walks the comparison cursor over the recomposed runes while they agree with the text. */
    method Compare(composed: seq<Rune>) returns (ok: bool)
      requires comparison <= |runes|
      modifies this`comparison
      ensures ok <==> Scalars(composed) <= Scalars(runes)[old(comparison)..]
      ensures ok ==> comparison == old(comparison) + |composed| <= |runes|
    {
      ghost var at, text := comparison, Scalars(runes);
      for n := 0 to |composed|
        invariant comparison == at + n <= |runes|
        invariant Scalars(composed)[..n] == text[at..at + n]
      {
        if comparison >= |runes| || composed[n].scalar != runes[comparison].scalar {
          assert Scalars(composed)[n] == composed[n].scalar;
          return false;
        }
        comparison := comparison + 1;
      }
      assert Scalars(composed) == text[at..at + |composed|];
      return true;
    }

    /** Recomposes the buffer, compares it with the text, and empties it. */
    method Flush() returns (ok: bool)
      requires Valid()
      modifies this`buffer, this`comparison, this`segments
      ensures ok <==> Agrees(tables, Scalars(runes), from, Close(old(segments)))
      ensures ok ==> Valid() && buffer == [] && segments == Close(old(segments))
    {
      hide Compose, Agrees, Emitted, Close;
      ghost var open, closed := segments.open, segments.closed;
      var composed := ComposeSegment(tables, buffer);
      FlushAgrees();
      ok := Compare(composed);
      if ok {
        buffer, segments := [], Close(segments);
        EmptySegment(tables);
      }
    }

    /** Closing the open segment agrees exactly when its recomposition is what the text goes on with. */
    lemma FlushAgrees()
      requires Valid()
      ensures var x, text, next := Scalars(Compose(tables, buffer)), Scalars(runes), Close(segments);
        && next.open == []
        && (Agrees(tables, text, from, next) <==> x <= text[comparison..])
        && (x <= text[comparison..] ==> Emitted(tables, next.closed) == text[from..comparison + |x|])
    {
      hide Compose, Reorder, Emitted;
      var open, closed := segments.open, segments.closed;
      EmitNext(tables, Scalars(runes), from, comparison, closed, open);
      EmptySegment(tables);
      assert forall s :: s in closed + [open] <==> s in closed || s == open;
    }

    /** Adds one rune behind everything it may not pass; refuses when the buffer is full. */
    method Ordered(part: Rune) returns (ok: bool)
      requires Valid()
      modifies this`buffer, this`segments
      ensures var next := old(segments).(open := old(segments).open + [part]);
        && (ok <==> Agrees(tables, Scalars(runes), from, next))
        && (ok ==> Valid() && segments == next)
    {
      hide Emitted, Insert;
      BufferBound();
      ghost var open := segments.open;
      assert (open + [part])[..|open|] == open;
      if |buffer| == MAX_BUFFER {
        return false;
      }
      buffer := Place(buffer, part);
      segments := segments.(open := open + [part]);
      return true;
    }

    static method Place(buffer: seq<Rune>, part: Rune) returns (r: seq<Rune>)
      ensures r == Insert(buffer, part)
    {
      hide Insert;
      var position := |buffer|;
      assert buffer[..position] == buffer;
      assert Insert(buffer, part) + buffer[position..] == Insert(buffer, part);
      if part.ccc != 0 {
        while position > 0 && buffer[position - 1].ccc > part.ccc
          invariant position <= |buffer|
          invariant Insert(buffer, part) == Insert(buffer[..position], part) + buffer[position..]
        {
          MovePast(buffer, position, part);
          position := position - 1;
        }
      }
      InsertHere(buffer[..position], part);
      return buffer[..position] + [part] + buffer[position..];
    }

    static lemma MovePast(buffer: seq<Rune>, position: nat, part: Rune)
      requires 0 < position <= |buffer| && part.ccc != 0 && buffer[position - 1].ccc > part.ccc
      ensures Insert(buffer[..position], part) + buffer[position..]
              == Insert(buffer[..position - 1], part) + buffer[position - 1..]
    {
      var front := buffer[..position];
      assert front[..position - 1] == buffer[..position - 1];
      assert buffer[position - 1..] == [buffer[position - 1]] + buffer[position..];
      assert Insert(front, part) == Insert(buffer[..position - 1], part) + [buffer[position - 1]];
      hide Insert;
    }

    static lemma InsertHere(front: seq<Rune>, part: Rune)
      requires part.ccc == 0 || front == [] || front[|front| - 1].ccc <= part.ccc
      ensures Insert(front, part) == front + [part]
    {
    }

    /** Takes one rune apart into the buffer, flushing before every piece that begins a segment. */
    method InsertRune(current: Rune) returns (ok: bool)
      requires Valid()
      modifies this`buffer, this`comparison, this`segments
      ensures var next := ArriveAll(old(segments), Pieces(tables, current));
        && from <= |runes|
        && (ok <==> Agrees(tables, Scalars(runes), from, next))
        && (ok ==> Valid() && segments == next)
    {
      if Syllable(current.scalar) {
        ok := InsertSyllable(current.scalar);
      } else if !Decomposes(current) {
        ArriveOne(segments, Piece(current, false));
        hide Agrees;
        ok := Ordered(current);
      } else {
        ok := InsertDecomposition(current);
      }
    }

    method InsertSyllable(x: nat) returns (ok: bool)
      requires Valid() && Syllable(x)
      modifies this`buffer, this`segments
      ensures var next := ArriveAll(old(segments), Uncut(Jamo(x)));
        && (ok <==> Agrees(tables, Scalars(runes), from, next))
        && (ok ==> Valid() && segments == next)
    {
      hide Emitted, Jamo, Insert;
      JamoArrive(segments, x);
      buffer := buffer + Jamo(x);
      segments := segments.(open := segments.open + Jamo(x));
      ReorderLength(segments.open);
      return |buffer| <= MAX_BUFFER;
    }

    method InsertDecomposition(current: Rune) returns (ok: bool)
      requires Valid() && !Syllable(current.scalar) && Decomposes(current)
      modifies this`buffer, this`comparison, this`segments
      ensures var next := ArriveAll(old(segments), Pieces(tables, current));
        && (ok <==> Agrees(tables, Scalars(runes), from, next))
        && (ok ==> Valid() && segments == next)
    {
      hide Agrees, CombinesBackward, Lookup, Arrive, Valid;
      ghost var start, pieces := segments, Pieces(tables, current);
      for n := 0 to |current.decomposition|
        invariant Valid() && segments == ArriveAll(start, pieces[..n])
      {
        assert pieces[..n + 1][..n] == pieces[..n];
        var part := RuneOf(tables, current.decomposition[n]);
        assert pieces[n] == Piece(part, part.ccc == 0 && !CombinesBackward(part));
        var fits := InsertPart(part);
        if !fits {
          DisagreesLater(start, pieces, n + 1);
          return false;
        }
      }
      assert pieces[..|pieces|] == pieces;
      assert Agrees(tables, Scalars(runes), from, segments) by { ValidAgrees(); }
      return true;
    }

    lemma ValidAgrees()
      requires Valid()
      ensures from <= |runes| && Agrees(tables, Scalars(runes), from, segments)
    {
    }

    lemma DisagreesLater(start: Segments, pieces: seq<Piece>, n: nat)
      requires n <= |pieces| && from <= |runes|
      requires !Agrees(tables, Scalars(runes), from, ArriveAll(start, pieces[..n]))
      ensures !Agrees(tables, Scalars(runes), from, ArriveAll(start, pieces))
    {
      hide Agrees, Arrive;
      var text := Scalars(runes);
      ArriveAllSplit(start, pieces[..n], pieces[n..]);
      assert pieces[..n] + pieces[n..] == pieces;
      if Agrees(tables, text, from, ArriveAll(start, pieces)) {
        DisagreesAll(tables, text, from, ArriveAll(start, pieces[..n]), pieces[n..]);
      }
    }

    /** One rune of a decomposition. */
    method InsertPart(part: Rune) returns (ok: bool)
      requires Valid()
      modifies this`buffer, this`comparison, this`segments
      ensures var next := Arrive(old(segments), Piece(part, part.ccc == 0 && !CombinesBackward(part)));
        && from <= |runes|
        && (ok <==> Agrees(tables, Scalars(runes), from, next))
        && (ok ==> Valid() && segments == next)
    {
      hide CombinesBackward, Emitted, Insert;
      BufferBound();
      ghost var c := segments;
      if part.ccc == 0 && !CombinesBackward(part) && |buffer| != 0 {
        var flushed := Flush();
        if !flushed {
          return false;
        }
      }
      ok := Ordered(part);
    }

    static lemma ArriveUncut(c: Segments, r: Rune)
      ensures Arrive(c, Piece(r, false)) == c.(open := c.open + [r])
    {
    }

    static lemma ArriveOne(c: Segments, p: Piece)
      ensures ArriveAll(c, [p]) == Arrive(c, p)
    {
      assert [p][..0] == [];
    }

    static lemma {:induction false} UncutArrive(c: Segments, rs: seq<Rune>)
      ensures ArriveAll(c, Uncut(rs)) == c.(open := c.open + rs)
    {
      if rs == [] {
        assert c.open + rs == c.open;
      } else {
        var front := rs[..|rs| - 1];
        UncutArrive(c, front);
        assert Uncut(rs)[..|rs| - 1] == Uncut(front);
        assert c.open + rs == (c.open + front) + [rs[|rs| - 1]];
      }
    }

    static lemma {:induction false} StartersAppend(open: seq<Rune>, rs: seq<Rune>)
      requires forall r :: r in rs ==> r.ccc == 0
      ensures Reorder(open + rs) == Reorder(open) + rs
    {
      hide Insert;
      if rs == [] {
        assert open + rs == open;
        assert Reorder(open) + rs == Reorder(open);
      } else {
        var front, last := rs[..|rs| - 1], rs[|rs| - 1];
        assert last in rs;
        StartersAppend(open, front);
        assert (open + rs)[..|open + rs| - 1] == open + front;
        InsertHere(Reorder(open) + front, last);
        assert front + [last] == rs;
      }
    }

    static lemma JamoArrive(c: Segments, x: nat)
      requires Syllable(x)
      ensures ArriveAll(c, Uncut(Jamo(x))) == c.(open := c.open + Jamo(x))
      ensures Reorder(c.open + Jamo(x)) == Reorder(c.open) + Jamo(x)
    {
      JamoShape(x);
      UncutArrive(c, Jamo(x));
      StartersAppend(c.open, Jamo(x));
    }

    /** stream: 2 when the count of nonstarters overflows, 1 when the rune begins a segment, else 0. */
    method Stream(current: Rune) returns (state: nat)
      modifies this`nonstarters
      ensures state == 2 <==> old(nonstarters) + current.leading > 30
      ensures state == 1 <==> state != 2 && current.leading == 0
      ensures state <= 2
      ensures state == 2 ==> nonstarters == 0
      ensures state != 2 ==> nonstarters == Opening(current, old(nonstarters))
    {
      nonstarters := nonstarters + current.leading;
      if nonstarters > MAX_NONSTARTERS {
        nonstarters := 0;
        return 2;
      }
      if current.leading == 0 {
        nonstarters := Trailing(current);
        return 1;
      }
      return 0;
    }

    /** The segments cut from the first n runes of the pass that begins at start. */
    function Cut(start: nat, n: nat): Segments
      requires start <= n <= |runes|
    {
      ArriveAll(Segments([], []), PiecesOf(tables, runes[start..n]))
    }

    lemma CutNext(start: nat, n: nat)
      requires start <= n < |runes|
      ensures Cut(start, n + 1) == ArriveAll(Cut(start, n), Pieces(tables, runes[n]))
    {
      hide Pieces, Arrive;
      assert runes[start..n + 1][..n - start] == runes[start..n];
      ArriveAllSplit(Segments([], []), PiecesOf(tables, runes[start..n]), Pieces(tables, runes[n]));
    }

    /** What disagrees part of the way through a pass disagrees at its end. */
    lemma {:induction false} CutDisagrees(start: nat, n: nat, end: nat)
      requires start <= n <= end <= |runes|
      requires !Agrees(tables, Scalars(runes), start, Cut(start, n))
      ensures !Agrees(tables, Scalars(runes), start, Cut(start, end))
      decreases end - n
    {
      hide Agrees, Cut;
      if n < end {
        CutNext(start, n);
        if Agrees(tables, Scalars(runes), start, Cut(start, n + 1)) {
          DisagreesAll(tables, Scalars(runes), start, Cut(start, n), Pieces(tables, runes[n]));
        }
        CutDisagrees(start, n + 1, end);
      }
    }

    lemma PassDisagrees(start: nat, n: nat, p: Pass)
      requires start <= n <= p.end <= |runes|
      requires !Agrees(tables, Scalars(runes), start, Cut(start, n))
      ensures !Agrees(tables, Scalars(runes), start, PassSegments(tables, runes, start, p))
    {
      hide Emitted, PiecesOf, Arrive;
      CutDisagrees(start, n, p.end);
      var c := ArriveAll(Segments([], []), Joined(PiecesOf(tables, runes[start..p.end]), p.joiner));
      if Agrees(tables, Scalars(runes), start, Close(c)) {
        ClosedAgrees(tables, Scalars(runes), start, c);
        if p.joiner {
          JoinedCut(start, p.end);
          DisagreesForGood(tables, Scalars(runes), start, Cut(start, p.end), Piece(Plain(GRAPHEME_JOINER), false));
        }
      }
    }

    lemma JoinedCut(start: nat, n: nat)
      requires start <= n <= |runes|
      ensures ArriveAll(Segments([], []), Joined(PiecesOf(tables, runes[start..n]), true))
              == Arrive(Cut(start, n), Piece(Plain(GRAPHEME_JOINER), false))
    {
      var ps := PiecesOf(tables, runes[start..n]);
      assert (ps + [Piece(Plain(GRAPHEME_JOINER), false)])[..|ps|] == ps;
    }

    static lemma ClosedAgrees(t: UnicodeTables, text: seq<nat>, from: nat, c: Segments)
      requires from <= |text| && Agrees(t, text, from, Close(c))
      ensures Agrees(t, text, from, c)
    {
      DisagreesForGood(t, text, from, c, Piece(Plain(0), true));
    }

    lemma JoinerDisagrees(start: nat, p: Pass)
      requires start <= p.end <= |runes| && p.joiner
      requires !Agrees(tables, Scalars(runes), start, Arrive(Cut(start, p.end), Piece(Plain(GRAPHEME_JOINER), false)))
      ensures !Agrees(tables, Scalars(runes), start, PassSegments(tables, runes, start, p))
    {
      hide Agrees, Cut, Arrive;
      JoinedCut(start, p.end);
      var c := ArriveAll(Segments([], []), Joined(PiecesOf(tables, runes[start..p.end]), p.joiner));
      if Agrees(tables, Scalars(runes), start, Close(c)) {
        ClosedAgrees(tables, Scalars(runes), start, c);
      }
    }

    method StartPass(cursor: nat)
      requires cursor < |runes| && buffer == []
      modifies this`comparison, this`from, this`segments
      ensures Valid() && from == cursor && segments == Cut(cursor, cursor)
    {
      comparison := cursor;
      from, segments := cursor, Segments([], []);
      assert runes[cursor..cursor] == [];
    }

    /** Reads on from n until a rune begins a segment, the nonstarters overflow, or the text ends. */
    method ReadOn(start: nat, n: nat) returns (ok: bool, end: nat, ghost joiner: bool)
      requires start < n <= |runes|
      requires Valid() && from == start && segments == Cut(start, n)
      modifies this
      ensures var p := PassFrom(runes, n, old(nonstarters));
        && (ok ==>
              && Valid() && from == start && p == Pass(end, nonstarters, joiner)
              && PassSegments(tables, runes, start, p) == Close(segments))
        && (!ok ==> !Agrees(tables, Scalars(runes), start, PassSegments(tables, runes, start, p)))
    {
      hide Agrees, Cut, PiecesOf, Pieces, Emitted, Valid, PassSegments, Arrive, Trailing;
      ghost var p := PassFrom(runes, n, nonstarters);
      end, joiner := n, false;
      while end < |runes|
        invariant start < end <= p.end <= |runes|
        invariant Valid() && from == start && segments == Cut(start, end)
        invariant p == PassFrom(runes, end, nonstarters)
      {
        var state := Stream(runes[end]);
        if state == 1 {
          NoJoiner(start, p);
          return true, end, false;
        }
        if state == 2 {
          JoinedCut(start, end);
          WithJoiner(start, p);
          ArriveUncut(segments, Plain(GRAPHEME_JOINER));
          var added := Ordered(Plain(GRAPHEME_JOINER));
          if !added {
            JoinerDisagrees(start, p);
          }
          return added, end, true;
        }
        CutNext(start, end);
        var inserted := InsertRune(runes[end]);
        if !inserted {
          PassDisagrees(start, end + 1, p);
          return false, end, false;
        }
        end := end + 1;
      }
      NoJoiner(start, p);
      return true, end, false;
    }

    lemma NoJoiner(start: nat, p: Pass)
      requires start <= p.end <= |runes| && !p.joiner
      ensures PassSegments(tables, runes, start, p) == Close(Cut(start, p.end))
    {
    }

    lemma WithJoiner(start: nat, p: Pass)
      requires start <= p.end <= |runes| && p.joiner
      ensures PassSegments(tables, runes, start, p)
              == Close(Arrive(Cut(start, p.end), Piece(Plain(GRAPHEME_JOINER), false)))
    {
      JoinedCut(start, p.end);
    }

    /** One turn of the outer loop: reads a pass, and always at least one rune. */
    method ReadPass(cursor: nat) returns (ok: bool, end: nat)
      requires cursor < |runes| && buffer == [] && nonstarters <= 3
      requires forall r :: r in runes ==> r.leading <= 3
      modifies this
      ensures var p := PassFrom(runes, cursor + 1, Opening(runes[cursor], old(nonstarters)));
        && (ok <==> Agrees(tables, Scalars(runes), cursor, PassSegments(tables, runes, cursor, p)))
        && (ok ==> end == p.end && nonstarters == p.nonstarters && buffer == [])
    {
      hide Agrees, Cut, PiecesOf, Pieces, Emitted, Valid, PassSegments, PassFrom, Trailing;
      ghost var p := PassFrom(runes, cursor + 1, Opening(runes[cursor], nonstarters));
      StartPass(cursor);
      assert runes[cursor] in runes;
      var state := Stream(runes[cursor]);
      assert state != 2;
      CutNext(cursor, cursor);
      var inserted := InsertRune(runes[cursor]);
      if !inserted {
        PassDisagrees(cursor, cursor + 1, p);
        return false, cursor;
      }
      ghost var joiner;
      ok, end, joiner := ReadOn(cursor, cursor + 1);
      if ok {
        ok := Flush();
      }
    }
  }

  /** nfc_normal */
  method NfcNormalText(tables: UnicodeTables, text: seq<codepoint>) returns (normal: bool)
    ensures normal <==> |text| <= 59 && (forall x :: x in text ==> !Surrogate(x)) && NormalText(tables, text)
  {
    if |text| > MAX_TEXT || exists x :: x in text && Surrogate(x) {
      return false;
    }
    hide Normal, PassFrom, Agrees, PassSegments, Lookup;
    var runes := RunesOf(tables, text);
    LeadingBound(tables, text);
    var cursor := QuickSpan(runes, 0);
    ghost var first := cursor;
    var normalizer := new Normalizer(tables, runes);
    while cursor < |runes|
      invariant cursor <= |runes| && normalizer.buffer == []
      invariant cursor < |runes| ==> normalizer.nonstarters <= 3
      invariant normalizer.tables == tables && normalizer.runes == runes
      invariant NormalText(tables, text) <==> Normal(tables, runes, cursor, normalizer.nonstarters)
      decreases |runes| - cursor
    {
      NormalStep(tables, runes, cursor, normalizer.nonstarters);
      var ok, end := normalizer.ReadPass(cursor);
      if !ok {
        return false;
      }
      cursor := QuickSpan(runes, end);
    }
    NormalEnd(tables, runes, normalizer.nonstarters);
    return true;
  }

  lemma LeadingBound(t: UnicodeTables, text: seq<codepoint>)
    ensures forall r :: r in RunesOf(t, text) ==> r.leading <= 3
  {
    hide Lookup;
  }

  lemma NormalEnd(t: UnicodeTables, runes: seq<Rune>, nonstarters: nat)
    ensures Normal(t, runes, |runes|, nonstarters)
  {
  }

  lemma NormalStep(t: UnicodeTables, runes: seq<Rune>, cursor: nat, nonstarters: nat)
    requires cursor < |runes|
    ensures var p := PassFrom(runes, cursor + 1, Opening(runes[cursor], nonstarters));
      Normal(t, runes, cursor, nonstarters) <==>
        Agrees(t, Scalars(runes), cursor, PassSegments(t, runes, cursor, p)) &&
        Normal(t, runes, QuickEnd(runes, p.end), p.nonstarters)
  {
    hide Agrees, PassSegments, PassFrom;
  }
}
