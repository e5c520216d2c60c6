/** The A-label test: Punycode, normalization, and the label rules, and what follows for URL identity. */
module Alabel {
  import opened Outcomes
  import opened NfcTables
  import opened NfcNormal
  import NfcStream
  import opened Punycode
  import UrlHosts
  import UrlComponents
  import UrlCanonical
  import UrlValidators

  //////////////////////////////////////////////////////////////////////////////
  // Joiners
  //////////////////////////////////////////////////////////////////////////////

  const NON_JOINER: codepoint := 0x200C
  const JOINER: codepoint := 0x200D

  /** One row a state: the next state for joining types 0 to 4, a joiner, a non-joiner, and after a virama. */
  const JOIN: seq<seq<nat>> := [
    [0, 2, 2, 0, 0, 5, 5, 1], [0, 2, 2, 0, 0, 0, 0, 0],
    [0, 2, 2, 2, 0, 5, 4, 3], [0, 2, 2, 2, 0, 0, 0, 0],
    [0, 5, 2, 4, 0, 5, 5, 4], [5, 5, 5, 5, 5, 5, 5, 5]
  ]

  function Cell(state: nat, joining: nat): (next: nat)
    requires state < 6 && joining < 8
    ensures next < 6 && (state == 5 ==> next == 5)
  {
    assert |JOIN[state]| == 8;
    JOIN[state][joining]
  }

  function JoiningOf(x: codepoint, p: Properties): (n: nat)
    ensures n < 7
  {
    if x == JOINER then 5 else if x == NON_JOINER then 6 else p.idna / 8
  }

  function JoinStep(t: UnicodeTables, state: nat, x: codepoint): (next: nat)
    requires state < 6
    ensures next < 6 && (state == 5 ==> next == 5)
  {
    var p := Lookup(t, x);
    var moved := Cell(state, JoiningOf(x, p));
    if p.idna / 4 % 2 == 1 then Cell(moved, 7) else moved
  }

  function JoinState(t: UnicodeTables, s: seq<codepoint>): (state: nat)
    ensures state < 6
  {
    if s == [] then 0 else JoinStep(t, JoinState(t, s[..|s| - 1]), s[|s| - 1])
  }

  predicate JoinersOk(t: UnicodeTables, s: seq<codepoint>) {
    NON_JOINER in s || JOINER in s ==> JoinState(t, s) !in {4, 5}
  }

  /** The joiner loop of valid_alabel. */
  method CheckJoiners(t: UnicodeTables, s: seq<codepoint>) returns (ok: bool)
    ensures ok <==> JoinersOk(t, s)
  {
    if NON_JOINER !in s && JOINER !in s {
      return true;
    }
    var state: nat := 0;
    for n := 0 to |s|
      invariant state < 6 && state == JoinState(t, s[..n])
    {
      hide Lookup, Cell, JoiningOf;
      assert s[..n + 1][..n] == s[..n];
      var p := Lookup(t, s[n]);
      state := Cell(state, JoiningOf(s[n], p));
      if p.idna / 4 % 2 == 1 {
        state := Cell(state, 7);
      }
    }
    assert s[..|s|] == s;
    return state !in {4, 5};
  }

  /** A label that has once failed the joiner rules fails them however it goes on. */
  lemma {:induction false} JoinFailureIsFinal(t: UnicodeTables, s: seq<codepoint>, more: seq<codepoint>)
    requires JoinState(t, s) == 5
    ensures JoinState(t, s + more) == 5
  {
    hide JoinStep;
    if more == [] {
      assert s + more == s;
    } else {
      var front := more[..|more| - 1];
      assert (s + more)[..|s + more| - 1] == s + front;
      JoinFailureIsFinal(t, s, front);
    }
  }

  //////////////////////////////////////////////////////////////////////////////
  // Direction
  //////////////////////////////////////////////////////////////////////////////

  function LastNot12(classes: seq<nat>): Option<nat> {
    if classes == [] then None
    else if classes[|classes| - 1] != 12 then Some(classes[|classes| - 1])
    else LastNot12(classes[..|classes| - 1])
  }

  predicate DirectionOk(classes: seq<nat>) {
    (exists c :: c in classes && c in {1, 5, 13}) ==>
      && classes[0] in {1, 13}
      && (forall c :: c in classes ==> c in {1, 2, 3, 4, 5, 6, 10, 11, 12, 13})
      && (match LastNot12(classes) case None => false case Some(c) => c in {1, 2, 5, 13})
      && !(2 in classes && 5 in classes)
  }

  function BidiClasses(t: UnicodeTables, s: seq<codepoint>): seq<nat> {
    seq(|s|, i requires 0 <= i < |s| => Lookup(t, s[i]).bidi)
  }

  //////////////////////////////////////////////////////////////////////////////
  // The test
  //////////////////////////////////////////////////////////////////////////////

  predicate TextScalars(s: seq<int>) { forall x :: x in s ==> 0 <= x <= MAX_SCALAR && !IsSurrogate(x) }

  /** The decoded scalars as code points. */
  function CodePoints(s: seq<int>): (r: seq<codepoint>)
    requires TextScalars(s)
    ensures |r| == |s| && forall i :: 0 <= i < |s| ==> r[i] == s[i]
  {
    if s == [] then [] else
      assert s[|s| - 1] in s && forall x :: x in s[..|s| - 1] ==> x in s;
      CodePoints(s[..|s| - 1]) + [s[|s| - 1]]
  }

  function Utf8Text(s: seq<codepoint>): seq<nat>
    requires forall x :: x in s ==> !Surrogate(x)
  {
    if s == [] then [] else
      assert s[0] in s && !Surrogate(s[0]) && forall x :: x in s[1..] ==> x in s;
      UrlComponents.Utf8(s[0] as char) + Utf8Text(s[1..])
  }

  /** The hyphen rules, on the UTF-8 bytes. */
  predicate HyphensOk(raw: seq<nat>) {
    && !(|raw| > 4 && raw[2] == 0x2D && raw[3] == 0x2D)
    && !(raw != [] && raw[0] == 0x2D)
    && !(raw != [] && raw[|raw| - 1] == 0x2D)
  }

  predicate AllPermitted(t: UnicodeTables, s: seq<codepoint>) {
    forall x :: x in s ==> Lookup(t, x).idna % 2 == 1
  }

  /** The rules on the decoded text, after the guards of nfc_normal. */
  predicate LabelRules(t: UnicodeTables, s: seq<codepoint>) {
    && s != [] && AllPermitted(t, s)
    && |s| <= 59 && (forall x :: x in s ==> !Surrogate(x)) && NormalText(t, s)
    && HyphensOk(Utf8Text(s))
    && Lookup(t, s[0]).idna / 2 % 2 == 0
    && JoinersOk(t, s)
    && DirectionOk(BidiClasses(t, s))
  }

  /** valid_alabel */
  predicate ValidAlabel(t: UnicodeTables, text: string) {
    "xn--" <= text && UrlHosts.DnsLabel(text) &&
    (match Decode(text[4..])
     case Err(_) => false
     case Ok(s) =>
       && s != [] && (exists x :: x in s && x >= 128)
       && TextScalars(s) && LabelRules(t, CodePoints(s))
       && Encodable(s) && Encode(s) == text[4..])
  }

  /** A payload never decodes to more scalars than it has characters. */
  lemma {:induction false} DecodeShort(p: string, pos: nat, out: seq<int>, insertion: nat, scalar: nat, bias: nat,
                                       s: seq<int>)
    requires pos <= |p| && DecodeFrom(p, pos, out, insertion, scalar, bias) == Ok(s)
    ensures |s| <= |out| + |p| - pos
    decreases |p| - pos
  {
    hide ReadInt, Adapt;
    if pos < |p| {
      var pos', delta, n, i := DecodeStep(p, pos, out, insertion, scalar, bias);
      DecodeShort(p, pos', out[..i] + [n] + out[i..], i + 1, n, Adapt(delta, |out| + 1, insertion == 0), s);
    }
  }

  /** After a successful decoding none of the shape checks can fail, and neither can the guards of nfc_normal. */
  lemma DecodedShape(t: UnicodeTables, payload: string)
    requires Decode(payload).Ok?
    ensures var s := Decode(payload).value;
      && TextScalars(s) && s != [] && |s| <= 59 && (exists x :: x in s && x >= 128)
      && (forall x :: x in CodePoints(s) ==> !Surrogate(x))
      && Encodable(s) && Encode(s) == payload
  {
    var s, split := Decode(payload).value, LastDash(payload);
    EncodeDecode(payload);
    DecodeShort(payload, split + 1, if split >= 0 then Ords(payload[..split]) else [], 0, 128, 72, s);
    hide DecodeFrom, Encode;
    assert TextScalars(s);
    forall x | x in CodePoints(s) ensures !Surrogate(x) {
      var i :| 0 <= i < |s| && CodePoints(s)[i] == x;
      assert s[i] in s;
    }
  }

  /** The test is the decoding and the label rules: its other checks, the final re-encoding among them, are implied. */
  lemma OnlyRulesMatter(t: UnicodeTables, text: string)
    ensures ValidAlabel(t, text) <==>
      "xn--" <= text && UrlHosts.DnsLabel(text) && Decode(text[4..]).Ok? &&
      TextScalars(Decode(text[4..]).value) && LabelRules(t, CodePoints(Decode(text[4..]).value))
  {
    hide Decode, LabelRules, UrlHosts.DnsLabel, Encode, Encodable, TextScalars;
    if "xn--" <= text && Decode(text[4..]).Ok? {
      DecodedShape(t, text[4..]);
    }
  }

  /** Two A-labels for the same Unicode label are the same. */
  lemma AlabelInjective(t: UnicodeTables, a: string, b: string)
    requires ValidAlabel(t, a) && ValidAlabel(t, b) && Decode(a[4..]) == Decode(b[4..])
    ensures a == b
  {
    hide Decode, LabelRules, UrlHosts.DnsLabel, Encode, Encodable;
    DecodeInjective(a[4..], b[4..]);
    assert a == a[..4] + a[4..] && b == b[..4] + b[4..] && a[..4] == b[..4];
  }

  function LabelTest(t: UnicodeTables): string -> bool {
    text => ValidAlabel(t, text)
  }

  /** With this test as the shared A-label predicate, the three URL implementations agree. */
  lemma AgreeWithLabels(t: UnicodeTables, u: string)
    ensures UrlCanonical.Canonicalize(LabelTest(t), u) == Ok(u) <==> UrlValidators.CanonicalFault(LabelTest(t), u).None?
    ensures UrlValidators.CanonicalFault(LabelTest(t), u).None? <==> UrlValidators.ValidateIdentity(LabelTest(t), u).Ok?
  {
    hide *;
    UrlValidators.ThreeAgree(LabelTest(t), u);
  }

  /** valid_alabel, with the loops it runs. */
  method CheckAlabel(t: UnicodeTables, text: string) returns (ok: bool)
    ensures ok <==> ValidAlabel(t, text)
  {
    hide Decode, UrlHosts.DnsLabel, Encode, Encodable, JoinersOk, DirectionOk, HyphensOk, Utf8Text, BidiClasses,
      NormalText, Lookup, AllPermitted, TextScalars;
    if !("xn--" <= text) || !UrlHosts.DnsLabel(text) {
      return false;
    }
    var decoded := DecodePunycode(text[4..]);
    if decoded.Err? {
      return false;
    }
    DecodedShape(t, text[4..]);
    var s := CodePoints(decoded.value);
    if !AllPermitted(t, s) {
      return false;
    }
    var normal := NfcStream.NfcNormalText(t, s);
    if !normal {
      return false;
    }
    if !HyphensOk(Utf8Text(s)) || Lookup(t, s[0]).idna / 2 % 2 == 1 {
      return false;
    }
    var joined := CheckJoiners(t, s);
    return joined && DirectionOk(BidiClasses(t, s));
  }
}
