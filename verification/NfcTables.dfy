/** Character properties, decomposition into pieces, and recomposition of one segment. */
module NfcTables {
  const LAST_CODE_POINT: nat := 0x10FFFF

  type codepoint = x: nat | x <= LAST_CODE_POINT witness 0

  datatype Fields = Fields(idna: nat, bidi: nat, ccc: nat, flags: nat, leading: nat, decomposition: seq<codepoint>)

  /** The range checks that the table loader makes. */
  type Properties = p: Fields |
    p.idna < 40 && p.bidi <= 24 && p.ccc < 56 && p.flags < 64 && p.leading <= 3 && |p.decomposition| <= 4
    witness Fields(0, 0, 0, 0, 0, [])

  datatype RawTables = RawTables(starts: seq<nat>, indices: seq<nat>, properties: seq<Properties>,
                                 compositions: map<nat, codepoint>)

  predicate WellFormed(t: RawTables) {
    && |t.starts| == |t.indices| > 0
    && t.starts[0] == 0
    && (forall i, j :: 0 <= i < j < |t.starts| ==> t.starts[i] < t.starts[j])
    && (forall i :: 0 <= i < |t.indices| ==> t.indices[i] < |t.properties|)
    && (forall k :: k in t.compositions ==> t.compositions[k] > 0)
  }

  type UnicodeTables = t: RawTables | WellFormed(t) witness RawTables([0], [0], [Fields(0, 0, 0, 0, 0, [])], map[])

  /** bisect_right */
  function BisectRight(starts: seq<nat>, x: nat): (n: nat)
    ensures n <= |starts|
  {
    if starts == [] then 0
    else if starts[|starts| - 1] <= x then |starts|
    else BisectRight(starts[..|starts| - 1], x)
  }

  lemma {:induction false} BisectRightSplits(starts: seq<nat>, x: nat)
    requires forall i, j :: 0 <= i < j < |starts| ==> starts[i] < starts[j]
    ensures forall i :: 0 <= i < |starts| ==> (i < BisectRight(starts, x) <==> starts[i] <= x)
  {
    if starts != [] && starts[|starts| - 1] > x {
      BisectRightSplits(starts[..|starts| - 1], x);
      forall i | 0 <= i < |starts| ensures i < BisectRight(starts, x) <==> starts[i] <= x {
        if i < |starts| - 1 {
          assert starts[..|starts| - 1][i] == starts[i];
        }
      }
    }
  }

  function Lookup(t: UnicodeTables, scalar: nat): Properties {
    BisectRightSplits(t.starts, scalar);
    t.properties[t.indices[BisectRight(t.starts, scalar) - 1]]
  }

  /** Lookup reads the one range that holds the scalar. */
  lemma LookupFindsRange(t: UnicodeTables, scalar: nat, i: nat)
    requires i < |t.starts| && t.starts[i] <= scalar
    requires i + 1 < |t.starts| ==> scalar < t.starts[i + 1]
    ensures Lookup(t, scalar) == t.properties[t.indices[i]]
  {
    BisectRightSplits(t.starts, scalar);
    assert BisectRight(t.starts, scalar) == i + 1;
  }

  /** The composition of a pair, 0 when there is none; the key keeps only 16 bits of each. */
  function PairOf(t: UnicodeTables, first: nat, second: nat): nat {
    var key := first % 0x10000 * 0x10000 + second % 0x10000;
    if key in t.compositions then t.compositions[key] else 0
  }

  //////////////////////////////////////////////////////////////////////////////
  // Runes
  //////////////////////////////////////////////////////////////////////////////

  datatype Rune = Rune(scalar: nat, ccc: nat, flags: nat, leading: nat, decomposition: seq<codepoint>)

  function Plain(scalar: nat): Rune { Rune(scalar, 0, 0, 0, []) }

  function RuneOf(t: UnicodeTables, scalar: nat): Rune {
    var p := Lookup(t, scalar);
    Rune(scalar, p.ccc, p.flags, p.leading, p.decomposition)
  }

  function Trailing(r: Rune): nat { r.flags % 4 }

  predicate Decomposes(r: Rune) { r.flags / 4 % 2 == 1 }

  predicate CombinesBackward(r: Rune) { r.flags / 8 % 2 == 1 }

  predicate NotQuick(r: Rune) { r.flags / 16 % 2 == 1 }

  /** Which bits of the flags say what: two bits of trailing count, then one each. */
  lemma FlagBits(r: Rune)
    ensures r.flags == Trailing(r) + (if Decomposes(r) then 4 else 0) + (if CombinesBackward(r) then 8 else 0)
                       + (if NotQuick(r) then 16 else 0) + 32 * (r.flags / 32)
    ensures Trailing(r) < 4
  {
    var f := r.flags;
    assert f / 8 == f / 4 / 2 && f / 16 == f / 8 / 2 && f / 32 == f / 16 / 2;
  }

  function Scalars(runes: seq<Rune>): seq<nat> {
    seq(|runes|, i requires 0 <= i < |runes| => runes[i].scalar)
  }

  //////////////////////////////////////////////////////////////////////////////
  // Hangul and recomposition
  //////////////////////////////////////////////////////////////////////////////

  predicate Syllable(x: nat) { 0xAC00 <= x < 0xD7A4 }

  function Jamo(x: nat): seq<Rune>
    requires Syllable(x)
  {
    var offset := x - 0xAC00;
    [Plain(0x1100 + offset / 588), Plain(0x1161 + offset / 28 % 21)]
    + (if offset % 28 != 0 then [Plain(0x11A7 + offset % 28)] else [])
  }

  /** The composed scalar for a pair in Hangul mode, 0 when there is none. */
  function HangulPair(first: nat, second: nat): nat {
    if 0x1100 <= first < 0x1113 && 0x1161 <= second < 0x1176 then
      0xAC00 + (first - 0x1100) * 588 + (second - 0x1161) * 28
    else if Syllable(first) && (first - 0xAC00) % 28 == 0 && 0x11A7 < second < 0x11C3 then first + second - 0x11A7
    else 0
  }

  /** The running state of recomposition. */
  datatype Composing = Composing(result: seq<Rune>, starter: nat, hangul: bool) {
    predicate Valid() { starter < |result| }
  }

  function StarterFor(c: Composing, hangul: bool, current: Rune): (starter: nat)
    requires c.Valid()
    ensures starter < |c.result|
  {
    var last := |c.result| - 1;
    if (hangul || CombinesBackward(current)) && c.result[last].ccc == 0 then last else c.starter
  }

  /** What the rune combines to with the starter, 0 for nothing. */
  function Combination(t: UnicodeTables, c: Composing, hangul: bool, current: Rune): nat
    requires c.Valid()
  {
    var starter, last := StarterFor(c, hangul, current), |c.result| - 1;
    if !(hangul || CombinesBackward(current)) then 0
    else if starter != last && c.result[last].ccc >= current.ccc then 0
    else if hangul then HangulPair(c.result[starter].scalar, current.scalar)
    else PairOf(t, c.result[starter].scalar, current.scalar)
  }

  function ComposeStep(t: UnicodeTables, c: Composing, current: Rune): (d: Composing)
    requires c.Valid()
    ensures d.Valid()
  {
    var hangul := c.hangul || 0x1100 <= current.scalar <= 0x11FF;
    var starter, combined := StarterFor(c, hangul, current), Combination(t, c, hangul, current);
    if combined != 0 then Composing(c.result[starter := Plain(combined)], starter, hangul)
    else Composing(c.result + [current], starter, hangul)
  }

  function ComposeAll(t: UnicodeTables, c: Composing, rest: seq<Rune>): (d: Composing)
    requires c.Valid()
    ensures d.Valid()
  {
    if rest == [] then c else ComposeStep(t, ComposeAll(t, c, rest[..|rest| - 1]), rest[|rest| - 1])
  }

  function Compose(t: UnicodeTables, segment: seq<Rune>): seq<Rune> {
    if segment == [] then [] else ComposeAll(t, Composing([segment[0]], 0, false), segment[1..]).result
  }

  lemma ComposeNext(t: UnicodeTables, c: Composing, segment: seq<Rune>, n: nat)
    requires c.Valid() && 1 <= n < |segment|
    ensures ComposeAll(t, c, segment[1..n + 1]) == ComposeStep(t, ComposeAll(t, c, segment[1..n]), segment[n])
  {
    assert segment[1..n + 1][..n - 1] == segment[1..n];
  }

  /** The inner decision of _compose_segment. */
  method Combine(t: UnicodeTables, result: seq<Rune>, starter: nat, hangul: bool, current: Rune)
    returns (newStarter: nat, combined: nat)
    requires starter < |result|
    ensures newStarter == StarterFor(Composing(result, starter, hangul), hangul, current)
    ensures combined == Combination(t, Composing(result, starter, hangul), hangul, current)
  {
    hide HangulPair, PairOf;
    newStarter, combined := starter, 0;
    if hangul || CombinesBackward(current) {
      var previousClass := result[|result| - 1].ccc;
      if previousClass == 0 {
        newStarter := |result| - 1;
      }
      var blocked := newStarter != |result| - 1 && previousClass >= current.ccc;
      if !blocked {
        var first, second := result[newStarter].scalar, current.scalar;
        combined := if hangul then HangulPair(first, second) else PairOf(t, first, second);
      }
    }
  }

  /** _compose_segment */
  method ComposeSegment(t: UnicodeTables, segment: seq<Rune>) returns (result: seq<Rune>)
    ensures result == Compose(t, segment)
  {
    if segment == [] {
      return [];
    }
    hide Combination, StarterFor, ComposeAll;
    var starter: nat, hangul := 0, false;
    result := [segment[0]];
    ghost var start := Composing(result, 0, false);
    assert ComposeAll(t, start, segment[1..1]) == start by {
      assert segment[1..1] == [];
      EmptyCompose(t, start);
    }
    for n := 1 to |segment|
      invariant starter < |result|
      invariant ComposeAll(t, start, segment[1..n]) == Composing(result, starter, hangul)
    {
      var current := segment[n];
      ghost var before := Composing(result, starter, hangul);
      ComposeNext(t, start, segment, n);
      hangul := hangul || 0x1100 <= current.scalar <= 0x11FF;
      OnlyHangulMatters(t, before, hangul, current);
      var newStarter, combined := Combine(t, result, starter, hangul, current);
      starter := newStarter;
      if combined != 0 {
        result := result[starter := Plain(combined)];
      } else {
        result := result + [current];
      }
    }
    assert segment[1..|segment|] == segment[1..];
  }

  lemma OnlyHangulMatters(t: UnicodeTables, c: Composing, hangul: bool, current: Rune)
    requires c.Valid()
    ensures var d := c.(hangul := hangul);
      StarterFor(c, hangul, current) == StarterFor(d, hangul, current)
      && Combination(t, c, hangul, current) == Combination(t, d, hangul, current)
  {
  }

  lemma EmptyCompose(t: UnicodeTables, c: Composing)
    requires c.Valid()
    ensures ComposeAll(t, c, []) == c
  {
  }

  lemma {:induction false} ComposeAllSplit(t: UnicodeTables, c: Composing, a: seq<Rune>, b: seq<Rune>)
    requires c.Valid()
    ensures ComposeAll(t, c, a + b) == ComposeAll(t, ComposeAll(t, c, a), b)
  {
    hide ComposeStep;
    if b == [] {
      assert a + b == a;
    } else {
      var front := b[..|b| - 1];
      ComposeAllSplit(t, c, a, front);
      assert (a + b)[..|a + b| - 1] == a + front;
    }
  }

  /** All the jamo of a sequence of precomposed syllables. */
  function AllJamo(syllables: seq<nat>): seq<Rune>
    requires forall x :: x in syllables ==> Syllable(x)
  {
    if syllables == [] then []
    else
      assert forall x :: x in syllables[..|syllables| - 1] ==> x in syllables;
      AllJamo(syllables[..|syllables| - 1]) + Jamo(syllables[|syllables| - 1])
  }

  function Plains(xs: seq<nat>): seq<Rune> {
    seq(|xs|, i requires 0 <= i < |xs| => Plain(xs[i]))
  }

  /** Leading and vowel jamo, and then a trailing one, compose to their syllable. */
  lemma JamoPairs(x: nat)
    requires Syllable(x)
    ensures var j := Jamo(x);
      && 0x1100 <= j[0].scalar < 0x1113 && 0x1161 <= j[1].scalar < 0x1176
      && (|j| == 2 ==> HangulPair(j[0].scalar, j[1].scalar) == x)
      && (|j| == 3 ==>
            && 0x11A7 < j[2].scalar < 0x11C3
            && HangulPair(j[0].scalar, j[1].scalar) == x - (j[2].scalar - 0x11A7)
            && HangulPair(HangulPair(j[0].scalar, j[1].scalar), j[2].scalar) == x)
  {
    var o := x - 0xAC00;
    assert o == 588 * (o / 588) + 28 * (o / 28 % 21) + o % 28;
  }

  lemma StepCombines(t: UnicodeTables, c: Composing, current: Rune)
    requires c.Valid() && c.result[|c.result| - 1].ccc == 0 && 0x1100 <= current.scalar <= 0x11FF
    ensures var last, d := |c.result| - 1, ComposeStep(t, c, current);
      var combined := HangulPair(c.result[last].scalar, current.scalar);
      && d.hangul
      && d.result == (if combined != 0 then c.result[..last] + [Plain(combined)] else c.result + [current])
  {
    hide HangulPair;
  }

  lemma SyllableAfterLeading(t: UnicodeTables, c: Composing, x: nat)
    requires Syllable(x) && c.Valid() && c.result[|c.result| - 1] == Jamo(x)[0]
    ensures var d := ComposeAll(t, c, Jamo(x)[1..]);
      d.hangul && d.result == c.result[..|c.result| - 1] + [Plain(x)]
  {
    hide ComposeStep, HangulPair;
    JamoPairs(x);
    var j := Jamo(x);
    StepCombines(t, c, j[1]);
    var d := ComposeStep(t, c, j[1]);
    assert ComposeAll(t, c, [j[1]]) == d by {
      assert [j[1]][..0] == [];
    }
    if |j| == 3 {
      StepCombines(t, d, j[2]);
      assert j[1..] == [j[1], j[2]] && [j[1], j[2]][..1] == [j[1]];
      PositivePair(j[0].scalar, j[1].scalar);
    } else {
      assert j[1..] == [j[1]];
    }
  }

  lemma PositivePair(first: nat, second: nat)
    requires 0x1100 <= first < 0x1113 && 0x1161 <= second < 0x1176
    ensures HangulPair(first, second) != 0
  {
  }

  lemma LeadingAppends(first: nat, second: nat)
    requires Syllable(first) && 0x1100 <= second < 0x1113
    ensures HangulPair(first, second) == 0
  {
  }

  /** Recomposing the jamo of precomposed syllables gives the syllables back. */
  lemma {:induction false} HangulRoundTrip(t: UnicodeTables, syllables: seq<nat>)
    requires forall x :: x in syllables ==> Syllable(x)
    ensures Compose(t, AllJamo(syllables)) == Plains(syllables)
  {
    hide ComposeStep, ComposeAll, HangulPair, Jamo;
    if syllables != [] {
      var front, x := syllables[..|syllables| - 1], syllables[|syllables| - 1];
      assert forall y :: y in front ==> y in syllables;
      assert x in syllables;
      JamoShape(x);
      if front == [] {
        assert AllJamo(syllables) == Jamo(x);
        SyllableAfterLeading(t, Composing([Jamo(x)[0]], 0, false), x);
      } else {
        HangulRoundTrip(t, front);
        AllJamoNonempty(front);
        var a := AllJamo(front);
        assert (a + Jamo(x))[1..] == a[1..] + Jamo(x) && (a + Jamo(x))[0] == a[0];
        var start := Composing([a[0]], 0, false);
        ComposeAllSplit(t, start, a[1..], Jamo(x));
        NextSyllable(t, ComposeAll(t, start, a[1..]), front, x);
      }
    }
  }

  lemma NextSyllable(t: UnicodeTables, c: Composing, front: seq<nat>, x: nat)
    requires front != [] && Syllable(front[|front| - 1]) && Syllable(x)
    requires c.Valid() && c.result == Plains(front)
    ensures ComposeAll(t, c, Jamo(x)).result == Plains(front + [x])
  {
    hide ComposeStep, HangulPair, Jamo;
    JamoShape(x);
    var j := Jamo(x);
    assert j == [j[0]] + j[1..];
    ComposeAllSplit(t, c, [j[0]], j[1..]);
    assert [j[0]][..0] == [];
    assert ComposeAll(t, c, [j[0]]) == ComposeStep(t, c, j[0]);
    JamoPairs(x);
    LeadingAppends(front[|front| - 1], j[0].scalar);
    StepCombines(t, c, j[0]);
    SyllableAfterLeading(t, ComposeStep(t, c, j[0]), x);
  }

  lemma JamoShape(x: nat)
    requires Syllable(x)
    ensures 2 <= |Jamo(x)| <= 3
    ensures forall r :: r in Jamo(x) ==> r.ccc == 0
  {
  }

  lemma AllJamoNonempty(syllables: seq<nat>)
    requires forall x :: x in syllables ==> Syllable(x)
    requires syllables != []
    ensures AllJamo(syllables) != []
  {
  }

  /** A segment with no jamo and nothing that combines backward is left alone. */
  lemma {:induction false} ComposeNothing(t: UnicodeTables, segment: seq<Rune>)
    requires forall r :: r in segment ==> !CombinesBackward(r) && !(0x1100 <= r.scalar <= 0x11FF)
    ensures Compose(t, segment) == segment
  {
    if segment != [] {
      ComposeAllNothing(t, segment, |segment|);
      assert segment[1..|segment|] == segment[1..];
    }
  }

  lemma {:induction false} ComposeAllNothing(t: UnicodeTables, segment: seq<Rune>, n: nat)
    requires forall r :: r in segment ==> !CombinesBackward(r) && !(0x1100 <= r.scalar <= 0x11FF)
    requires 1 <= n <= |segment|
    ensures ComposeAll(t, Composing([segment[0]], 0, false), segment[1..n]) == Composing(segment[..n], 0, false)
  {
    if n > 1 {
      ComposeAllNothing(t, segment, n - 1);
      assert segment[1..n][..n - 2] == segment[1..n - 1];
      assert segment[..n] == segment[..n - 1] + [segment[n - 1]];
    }
  }
}
