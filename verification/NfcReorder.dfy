/** The reorder buffer: insertion keeps it in canonical order (Unicode Standard section 3.11). */
module NfcReorder {
  import opened NfcTables

  /** Where ordered() puts a rune: after every rune it may not pass. */
  function Insert(buffer: seq<Rune>, part: Rune): seq<Rune> {
    if buffer == [] || part.ccc == 0 || buffer[|buffer| - 1].ccc <= part.ccc then buffer + [part]
    else Insert(buffer[..|buffer| - 1], part) + [buffer[|buffer| - 1]]
  }

  /** The buffer after a sequence of arrivals. */
  function Reorder(arrived: seq<Rune>): seq<Rune> {
    if arrived == [] then [] else Insert(Reorder(arrived[..|arrived| - 1]), arrived[|arrived| - 1])
  }

  lemma {:induction false} InsertLength(buffer: seq<Rune>, part: Rune)
    ensures |Insert(buffer, part)| == |buffer| + 1
  {
    if buffer != [] && part.ccc != 0 && buffer[|buffer| - 1].ccc > part.ccc {
      InsertLength(buffer[..|buffer| - 1], part);
    }
  }

  lemma {:induction false} ReorderLength(arrived: seq<Rune>)
    ensures |Reorder(arrived)| == |arrived|
  {
    if arrived != [] {
      ReorderLength(arrived[..|arrived| - 1]);
      InsertLength(Reorder(arrived[..|arrived| - 1]), arrived[|arrived| - 1]);
    }
  }

  //////////////////////////////////////////////////////////////////////////////
  // The canonical ordering algorithm as exchanges of neighbours
  //////////////////////////////////////////////////////////////////////////////

  predicate Exchangeable(a: Rune, b: Rune) { a.ccc > b.ccc > 0 }

  ghost predicate CanonicallyOrdered(s: seq<Rune>) {
    forall i :: 0 < i < |s| ==> !Exchangeable(s[i - 1], s[i])
  }

  function Exchange(s: seq<Rune>, i: nat): seq<Rune>
    requires i + 1 < |s|
  {
    s[..i] + [s[i + 1], s[i]] + s[i + 2..]
  }

  /** Exchanges at the given places are each permitted. */
  ghost predicate Permitted(s: seq<Rune>, places: seq<nat>)
    decreases |places|
  {
    places == [] ||
    (places[0] + 1 < |s| && Exchangeable(s[places[0]], s[places[0] + 1]) &&
     Permitted(Exchange(s, places[0]), places[1..]))
  }

  ghost function Exchanges(s: seq<Rune>, places: seq<nat>): seq<Rune>
    requires Permitted(s, places)
    decreases |places|
  {
    if places == [] then s else Exchanges(Exchange(s, places[0]), places[1..])
  }

  lemma {:induction false} InsertOrdered(buffer: seq<Rune>, part: Rune)
    requires CanonicallyOrdered(buffer)
    ensures CanonicallyOrdered(Insert(buffer, part))
    ensures var r := Insert(buffer, part);
      r[|r| - 1] == part || (buffer != [] && r[|r| - 1] == buffer[|buffer| - 1])
  {
    if buffer != [] && part.ccc != 0 && buffer[|buffer| - 1].ccc > part.ccc {
      var front, last := buffer[..|buffer| - 1], buffer[|buffer| - 1];
      InsertOrdered(front, part);
      InsertLength(front, part);
      if front != [] {
        assert !Exchangeable(buffer[|buffer| - 2], buffer[|buffer| - 1]);
      }
    }
  }

  /** The buffer has no pair left to exchange. */
  lemma {:induction false} ReorderOrdered(arrived: seq<Rune>)
    ensures CanonicallyOrdered(Reorder(arrived))
  {
    if arrived != [] {
      ReorderOrdered(arrived[..|arrived| - 1]);
      InsertOrdered(Reorder(arrived[..|arrived| - 1]), arrived[|arrived| - 1]);
    }
  }

  /** Inserting an exchangeable pair in either order gives the same buffer. */
  lemma {:induction false} InsertCommutes(buffer: seq<Rune>, a: Rune, b: Rune)
    requires Exchangeable(a, b)
    ensures Insert(Insert(buffer, a), b) == Insert(Insert(buffer, b), a)
  {
    if buffer == [] || buffer[|buffer| - 1].ccc <= a.ccc {
      assert (buffer + [a])[..|buffer|] == buffer;
      InsertLength(buffer, b);
      InsertLast(buffer, b);
    } else {
      var front, last := buffer[..|buffer| - 1], buffer[|buffer| - 1];
      InsertCommutes(front, a, b);
      var ra, rb := Insert(front, a), Insert(front, b);
      assert (ra + [last])[..|ra|] == ra && (rb + [last])[..|rb|] == rb;
    }
  }

  lemma InsertLast(buffer: seq<Rune>, part: Rune)
    ensures var r := Insert(buffer, part);
      r != [] && (r[|r| - 1] == part || (buffer != [] && r[|r| - 1] == buffer[|buffer| - 1]))
  {
  }

  lemma ExchangeInFront(s: seq<Rune>, i: nat)
    requires i + 2 < |s|
    ensures var t, front := Exchange(s, i), s[..|s| - 1];
      |t| == |s| && t[..|t| - 1] == Exchange(front, i) && t[|t| - 1] == s[|s| - 1]
  {
  }

  lemma {:induction false} ExchangeKeepsReorder(s: seq<Rune>, i: nat)
    requires i + 1 < |s| && Exchangeable(s[i], s[i + 1])
    ensures Reorder(Exchange(s, i)) == Reorder(s)
  {
    hide Insert;
    var front, last := s[..|s| - 1], s[|s| - 1];
    var t := Exchange(s, i);
    if i + 2 == |s| {
      var start := s[..i];
      assert front == start + [s[i]] && front[..i] == start;
      assert t == start + [s[i + 1]] + [s[i]] && t[..i + 1] == start + [s[i + 1]] && t[..i + 1][..i] == start;
      InsertCommutes(Reorder(start), s[i], s[i + 1]);
    } else {
      ExchangeKeepsReorder(front, i);
      ExchangeInFront(s, i);
    }
  }

  lemma {:induction false} OrderedIsFixed(s: seq<Rune>)
    requires CanonicallyOrdered(s)
    ensures Reorder(s) == s
  {
    if s != [] {
      var front, last := s[..|s| - 1], s[|s| - 1];
      OrderedIsFixed(front);
      if front != [] {
        assert !Exchangeable(s[|s| - 2], s[|s| - 1]);
      }
      assert front + [last] == s;
    }
  }

  /** Exchanging in any order, until nothing is left to exchange, always ends in the buffer. */
  lemma {:induction false} ReorderUnique(s: seq<Rune>, places: seq<nat>)
    requires Permitted(s, places) && CanonicallyOrdered(Exchanges(s, places))
    ensures Exchanges(s, places) == Reorder(s)
    decreases |places|
  {
    if places == [] {
      OrderedIsFixed(s);
    } else {
      ReorderUnique(Exchange(s, places[0]), places[1..]);
      ExchangeKeepsReorder(s, places[0]);
    }
  }

  lemma {:induction false} ExchangesAppend(s: seq<Rune>, a: seq<nat>, b: seq<nat>)
    requires Permitted(s, a) && Permitted(Exchanges(s, a), b)
    ensures Permitted(s, a + b) && Exchanges(s, a + b) == Exchanges(Exchanges(s, a), b)
    decreases |a|
  {
    if a == [] {
      assert a + b == b;
    } else {
      ExchangesAppend(Exchange(s, a[0]), a[1..], b);
      assert (a + b)[0] == a[0] && (a + b)[1..] == a[1..] + b;
    }
  }

  /** Exchanges inside a prefix do not depend on what follows it. */
  lemma {:induction false} ExchangesInPrefix(s: seq<Rune>, places: seq<nat>, rest: seq<Rune>)
    requires Permitted(s, places)
    ensures Permitted(s + rest, places) && Exchanges(s + rest, places) == Exchanges(s, places) + rest
    decreases |places|
  {
    if places != [] {
      var i := places[0];
      assert Exchange(s + rest, i) == Exchange(s, i) + rest;
      ExchangesInPrefix(Exchange(s, i), places[1..], rest);
    }
  }

  lemma {:induction false} InsertReachable(buffer: seq<Rune>, part: Rune) returns (places: seq<nat>)
    ensures Permitted(buffer + [part], places) && Exchanges(buffer + [part], places) == Insert(buffer, part)
  {
    if buffer == [] || part.ccc == 0 || buffer[|buffer| - 1].ccc <= part.ccc {
      places := [];
    } else {
      var front, last := buffer[..|buffer| - 1], buffer[|buffer| - 1];
      var rest := InsertReachable(front, part);
      places := [|front|] + rest;
      assert Exchange(buffer + [part], |front|) == front + [part] + [last];
      ExchangesInPrefix(front + [part], rest, [last]);
      assert places[1..] == rest;
    }
  }

  /** The buffer is reached from the arrivals by permitted exchanges. */
  lemma {:induction false} ReorderReachable(arrived: seq<Rune>) returns (places: seq<nat>)
    ensures Permitted(arrived, places) && Exchanges(arrived, places) == Reorder(arrived)
  {
    if arrived == [] {
      places := [];
    } else {
      var front, last := arrived[..|arrived| - 1], arrived[|arrived| - 1];
      var first := ReorderReachable(front);
      ExchangesInPrefix(front, first, [last]);
      assert front + [last] == arrived;
      var second := InsertReachable(Reorder(front), last);
      ExchangesAppend(arrived, first, second);
      places := first + second;
    }
  }

  /** Starters stay where they arrive. */
  lemma {:induction false} StartersStay(arrived: seq<Rune>)
    requires forall r :: r in arrived ==> r.ccc == 0
    ensures Reorder(arrived) == arrived
  {
    forall i | 0 < i < |arrived| ensures !Exchangeable(arrived[i - 1], arrived[i]) {
      assert arrived[i] in arrived;
    }
    OrderedIsFixed(arrived);
  }
}
