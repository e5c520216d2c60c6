/** The rules of the A-label test said on their own: direction as in RFC 5893, joiners column by column, hyphens by
    character. */
module AlabelRules {
  import opened Outcomes
  import opened NfcTables
  import opened NfcNormal
  import opened Punycode
  import opened Alabel
  import UrlComponents
  import UrlHosts

  //////////////////////////////////////////////////////////////////////////////
  // Direction
  //////////////////////////////////////////////////////////////////////////////

  const R: nat := 1
  const EN: nat := 2
  const AN: nat := 5
  const NSM: nat := 12
  const AL: nat := 13

  /** Section 2 of RFC 5893 for a label that holds a right-to-left character: it begins with R or AL; L,
      separators, white space and the directional controls do not occur; behind an R, AL, EN or AN there are only
      nonspacing marks to its end; and EN and AN do not meet. */
  ghost predicate DirectionRules(classes: seq<nat>) {
    (R !in classes && AL !in classes && AN !in classes) ||
    (&& classes[0] in [R, AL]
     && (forall c :: c in classes ==> 1 <= c <= 6 || 10 <= c <= 13)
     && (exists k :: 0 <= k < |classes| && classes[k] in [R, AL, EN, AN]
                    && forall i :: k < i < |classes| ==> classes[i] == NSM)
     && !(EN in classes && AN in classes))
  }

  lemma {:induction false} LastIs(classes: seq<nat>)
    ensures LastNot12(classes).None? ==> forall c :: c in classes ==> c == NSM
    ensures LastNot12(classes).Some? ==>
      exists k :: 0 <= k < |classes| && classes[k] == LastNot12(classes).value && classes[k] != NSM
                  && forall i :: k < i < |classes| ==> classes[i] == NSM
  {
    if classes != [] {
      var last := |classes| - 1;
      if classes[last] == NSM {
        var front := classes[..last];
        LastIs(front);
        if LastNot12(front).Some? {
          var k :| 0 <= k < |front| && front[k] == LastNot12(front).value && front[k] != NSM
                   && forall i :: k < i < |front| ==> front[i] == NSM;
          assert classes[k] == front[k] && forall i :: k < i < |classes| ==> classes[i] == NSM;
        } else {
          assert forall c :: c in classes ==> c in front || c == classes[last];
        }
      } else {
        assert classes[last] == LastNot12(classes).value;
      }
    }
  }

  lemma DirectionIs(classes: seq<nat>)
    ensures DirectionOk(classes) <==> DirectionRules(classes)
  {
    hide LastNot12;
    LastIs(classes);
  }

  //////////////////////////////////////////////////////////////////////////////
  // Joiners
  //////////////////////////////////////////////////////////////////////////////

  // States: 0 start, 1 behind a virama, 2 behind a character that joins to its right (or one it is transparent to),
  // 3 behind such a character with a virama, 4 behind a non-joiner that still needs its right side, 5 failed.
  // Joining types: 0 none, 1 left-joining, 2 dual-joining, 3 transparent, 4 right-joining.

  /** The joiner table, column by column. */
  lemma JoinColumns(state: nat)
    requires state < 6
    ensures Cell(5, 0) == Cell(5, 1) == Cell(5, 2) == Cell(5, 3) == 5
    ensures Cell(5, 4) == Cell(5, 5) == Cell(5, 6) == Cell(5, 7) == 5
    ensures state < 5 ==> Cell(state, 0) == 0 && Cell(state, 4) == 0 && Cell(state, 2) == 2
    ensures state < 5 ==> Cell(state, 1) == if state == 4 then 5 else 2
    ensures state < 5 ==> Cell(state, 3) == if state in {2, 3} then 2 else if state == 4 then 4 else 0
    ensures state < 5 ==> Cell(state, 5) == if state in {1, 3} then 0 else 5
    ensures state < 5 ==> Cell(state, 6) == if state in {1, 3} then 0 else if state == 2 then 4 else 5
    ensures state < 5 ==>
              Cell(state, 7) == if state == 0 then 1 else if state == 2 then 3 else if state == 4 then 4 else 0
  {
  }

  predicate Virama(t: UnicodeTables, x: codepoint) { Lookup(t, x).idna / 4 % 2 == 1 }

  function JoiningType(t: UnicodeTables, x: codepoint): nat { Lookup(t, x).idna / 8 }

  predicate IsJoiner(x: codepoint) { x == 0x200C || x == 0x200D }

  lemma JoinNext(t: UnicodeTables, s: seq<codepoint>, x: codepoint)
    ensures JoinState(t, s + [x]) == JoinStep(t, JoinState(t, s), x)
  {
    hide JoinStep;
    assert (s + [x])[..|s|] == s;
  }

  /** One step without a virama, in terms of the joining type. */
  lemma JoinPlain(t: UnicodeTables, s: seq<codepoint>, x: codepoint)
    requires !IsJoiner(x) && !Virama(t, x)
    ensures JoinState(t, s + [x]) == Cell(JoinState(t, s), JoiningType(t, x))
  {
    hide Lookup, JOIN, Cell, JoinState;
    JoinNext(t, s, x);
  }

  /** Only a virama leads to the states in which a joiner is always welcome. */
  lemma BehindVirama(t: UnicodeTables, s: seq<codepoint>)
    ensures JoinState(t, s) in {1, 3} ==> s != [] && Virama(t, s[|s| - 1])
  {
    if s != [] {
      hide Lookup, JOIN, Cell, JoiningOf;
      var before, x := JoinState(t, s[..|s| - 1]), s[|s| - 1];
      JoinColumns(before);
      assert Cell(before, JoiningOf(x, Lookup(t, x))) !in {1, 3} by { NoVirama(before, JoiningOf(x, Lookup(t, x))); }
    }
  }

  lemma NoVirama(state: nat, joining: nat)
    requires state < 6 && joining < 7
    ensures Cell(state, joining) !in {1, 3}
  {
    JoinColumns(state);
    hide JOIN, Cell;
  }

  /** A zero-width joiner fails the label unless it stands directly behind a virama; there it is welcome. */
  lemma JoinerNeedsVirama(t: UnicodeTables, s: seq<codepoint>)
    requires !Virama(t, JOINER)
    ensures JoinState(t, s + [JOINER]) in {0, 5}
    ensures JoinState(t, s + [JOINER]) == 0 <==> JoinState(t, s) in {1, 3}
    ensures JoinState(t, s + [JOINER]) == 0 ==> s != [] && Virama(t, s[|s| - 1])
  {
    hide Lookup, JOIN, Cell, JoinState;
    JoinNext(t, s, JOINER);
    JoinColumns(JoinState(t, s));
    BehindVirama(t, s);
  }

  predicate LeftJoining(t: UnicodeTables, x: codepoint) {
    !IsJoiner(x) && !Virama(t, x) && JoiningType(t, x) in {1, 2}
  }

  predicate RightJoining(t: UnicodeTables, x: codepoint) {
    !IsJoiner(x) && !Virama(t, x) && JoiningType(t, x) in {2, 4}
  }

  predicate Transparent(t: UnicodeTables, x: codepoint) {
    !IsJoiner(x) && !Virama(t, x) && JoiningType(t, x) == 3
  }

  lemma {:induction false} TransparentStays(t: UnicodeTables, s: seq<codepoint>, ts: seq<codepoint>)
    requires forall x :: x in ts ==> Transparent(t, x)
    ensures JoinState(t, s) in {2, 4} ==> JoinState(t, s + ts) == JoinState(t, s)
  {
    hide Lookup, JOIN, Cell, JoinState;
    if ts == [] {
      assert s + ts == s;
    } else {
      var front, x := ts[..|ts| - 1], ts[|ts| - 1];
      assert x in ts && forall y :: y in front ==> y in ts;
      TransparentStays(t, s, front);
      assert s + ts == (s + front) + [x];
      JoinPlain(t, s + front, x);
      JoinColumns(JoinState(t, s + front));
    }
  }

  /** The rule of appendix A.1 of RFC 5892 for a non-joiner: between a left- or dual-joining character and a right- or
      dual-joining one, transparent characters aside, it does not fail the label; and with nothing behind it that
      it needs, the label may not end. */
  lemma NonJoinerBetween(t: UnicodeTables, s: seq<codepoint>, l: codepoint, before: seq<codepoint>,
                         after: seq<codepoint>, r: codepoint)
    requires JoinState(t, s) !in {4, 5} && LeftJoining(t, l) && RightJoining(t, r)
    requires (forall x :: x in before ==> Transparent(t, x)) && (forall x :: x in after ==> Transparent(t, x))
    requires !Virama(t, NON_JOINER)
    ensures var open := s + [l] + before + [NON_JOINER] + after;
      JoinState(t, open) == 4 && JoinState(t, open + [r]) !in {4, 5}
  {
    hide Lookup, JOIN, Cell, JoinState;
    JoinPlain(t, s, l);
    JoinColumns(JoinState(t, s));
    TransparentStays(t, s + [l], before);
    var left := s + [l] + before;
    JoinNext(t, left, NON_JOINER);
    JoinColumns(2);
    TransparentStays(t, left + [NON_JOINER], after);
    var open := left + [NON_JOINER] + after;
    JoinPlain(t, open, r);
    JoinColumns(4);
  }

  /** A non-joiner behind neither a virama nor a character that joins to its right fails the label. */
  lemma NonJoinerAlone(t: UnicodeTables, s: seq<codepoint>)
    requires JoinState(t, s) == 0 && !Virama(t, NON_JOINER)
    ensures JoinState(t, s + [NON_JOINER]) == 5
  {
    hide Lookup, JOIN, Cell, JoinState;
    JoinNext(t, s, NON_JOINER);
    JoinColumns(0);
  }

  //////////////////////////////////////////////////////////////////////////////
  // Hyphens
  //////////////////////////////////////////////////////////////////////////////

  lemma Utf8First(x: codepoint)
    requires !Surrogate(x)
    ensures var b := UrlComponents.Utf8(x as char);
      && 1 <= |b| <= 4 && (|b| == 1 <==> x < 128) && (x < 128 ==> b[0] == x)
      && (x >= 128 ==> b[0] >= 0x80 && b[|b| - 1] >= 0x80)
      && (|b| == 2 <==> 0x80 <= x < 0x800) && (forall i :: 0 <= i < |b| ==> x >= 128 ==> b[i] >= 0x80)
  {
  }

  lemma Utf8Step(s: seq<codepoint>)
    requires s != [] && forall x :: x in s ==> !Surrogate(x)
    ensures s[0] in s && !Surrogate(s[0]) && forall x :: x in s[1..] ==> !Surrogate(x)
    ensures Utf8Text(s) == UrlComponents.Utf8(s[0] as char) + Utf8Text(s[1..])
  {
    assert s[0] in s && forall x :: x in s[1..] ==> x in s;
  }

  /** The first and the last byte are hyphens exactly when the first and the last character are. */
  lemma {:induction false} HyphenEnds(s: seq<codepoint>)
    requires s != [] && forall x :: x in s ==> !Surrogate(x)
    ensures var raw := Utf8Text(s);
      && raw != [] && (raw[0] == 0x2D <==> s[0] == 0x2D) && (raw[|raw| - 1] == 0x2D <==> s[|s| - 1] == 0x2D)
  {
    hide UrlComponents.Utf8, Utf8Text;
    Utf8Step(s);
    Utf8First(s[0]);
    if |s| > 1 {
      HyphenEnds(s[1..]);
    } else {
      assert s[1..] == [];
      NoBytes();
    }
  }

  lemma NoBytes()
    ensures Utf8Text([]) == []
  {
  }

  /** Hyphens at the third and fourth byte: behind two ASCII characters, or behind one that takes two bytes. */
  predicate HyphensInside(s: seq<codepoint>) {
    || (|s| >= 4 && s[0] < 0x80 && s[1] < 0x80 && s[2] == 0x2D && s[3] == 0x2D)
    || (|s| >= 3 && 0x80 <= s[0] < 0x800 && s[1] == 0x2D && s[2] == 0x2D)
  }

  lemma {:induction false} HyphenPlaces(s: seq<codepoint>)
    requires forall x :: x in s ==> !Surrogate(x)
    ensures var raw := Utf8Text(s); |raw| > 3 && raw[2] == 0x2D && raw[3] == 0x2D <==> HyphensInside(s)
  {
    hide UrlComponents.Utf8, Utf8Text;
    NoBytes();
    if s != [] {
      Utf8Step(s);
      Utf8First(s[0]);
      var s1 := s[1..];
      if s1 != [] {
        Utf8Step(s1);
        Utf8First(s1[0]);
        var s2 := s1[1..];
        if s2 != [] {
          Utf8Step(s2);
          Utf8First(s2[0]);
          var s3 := s2[1..];
          if s3 != [] {
            Utf8Step(s3);
            Utf8First(s3[0]);
          }
        }
      }
    }
  }

  /** The hyphen rules by character; a hyphen pair at the third and fourth byte counts only in more than four. */
  lemma HyphensAre(s: seq<codepoint>)
    requires s != [] && forall x :: x in s ==> !Surrogate(x)
    ensures HyphensOk(Utf8Text(s)) <==>
      s[0] != 0x2D && s[|s| - 1] != 0x2D && !(HyphensInside(s) && |Utf8Text(s)| > 4)
  {
    hide Utf8Text;
    HyphenEnds(s);
    HyphenPlaces(s);
  }

  //////////////////////////////////////////////////////////////////////////////
  // The whole test
  //////////////////////////////////////////////////////////////////////////////

  function Directions(t: UnicodeTables, s: seq<codepoint>): seq<nat> {
    seq(|s|, i requires 0 <= i < |s| => Lookup(t, s[i]).bidi)
  }

  lemma DirectionsAre(t: UnicodeTables, s: seq<codepoint>)
    ensures BidiClasses(t, s) == Directions(t, s)
  {
    hide Lookup;
  }

  /** Every label rule at once: permitted characters, normalization, hyphens, no leading mark, joiners, direction. */
  lemma AlabelExactly(t: UnicodeTables, text: string)
    ensures ValidAlabel(t, text) <==>
      && 4 < |text| <= 63 && text[..4] == "xn--" && text[|text| - 1] != '-'
      && (forall c :: c in text ==> 'a' <= c <= 'z' || '0' <= c <= '9' || c == '-')
      && Decode(text[4..]).Ok? && TextScalars(Decode(text[4..]).value)
      && (var s := CodePoints(Decode(text[4..]).value);
          && s != [] && (forall x :: x in s ==> !Surrogate(x) && Lookup(t, x).idna % 2 == 1)
          && NormalText(t, s)
          && s[0] != 0x2D && s[|s| - 1] != 0x2D && !(HyphensInside(s) && |Utf8Text(s)| > 4)
          && Lookup(t, s[0]).idna / 2 % 2 == 0
          && (0x200C in s || 0x200D in s ==> JoinState(t, s) !in {4, 5})
          && DirectionRules(Directions(t, s)))
  {
    hide Decode, NormalText, Lookup, HyphensOk, HyphensInside, Utf8Text, DirectionOk, DirectionRules, JoinState, Encode,
      Encodable, TextScalars, Directions, BidiClasses;
    if |text| >= 4 && text[..4] == "xn--" {
      assert "xn--" <= text;
      if Decode(text[4..]).Ok? {
        DecodedShape(t, text[4..]);
        var s := CodePoints(Decode(text[4..]).value);
        HyphensAre(s);
        DirectionIs(BidiClasses(t, s));
        DirectionsAre(t, s);
        RulesAre(t, s);
      }
    }
    OnlyRulesMatter(t, text);
    hide LabelRules;
    EmptyPayload();
    hide UrlHosts.DnsLabel;
    if "xn--" <= text {
      LabelShape(text);
      if |text| == 4 { assert text[4..] == ""; }
    }
  }

  lemma LabelShape(text: string)
    requires "xn--" <= text
    ensures UrlHosts.DnsLabel(text) <==>
      |text| <= 63 && text[|text| - 1] != '-'
      && forall c :: c in text ==> 'a' <= c <= 'z' || '0' <= c <= '9' || c == '-'
  {
    assert text[0] == 'x';
  }

  lemma EmptyPayload()
    ensures Decode("").Err?
  {
  }

  lemma RulesAre(t: UnicodeTables, s: seq<codepoint>)
    ensures LabelRules(t, s) <==>
      && s != [] && |s| <= 59 && (forall x :: x in s ==> !Surrogate(x) && Lookup(t, x).idna % 2 == 1)
      && NormalText(t, s) && HyphensOk(Utf8Text(s)) && Lookup(t, s[0]).idna / 2 % 2 == 0
      && (0x200C in s || 0x200D in s ==> JoinState(t, s) !in {4, 5}) && DirectionOk(BidiClasses(t, s))
  {
    hide NormalText, Lookup, HyphensOk, Utf8Text, DirectionOk, JoinState;
  }
}
