/** What the canonicalizer lets through, stated by byte values, by code points and by the texts that a grammar
    generates. */
module UrlRules {
  import opened Outcomes
  import opened Texts
  import opened UrlComponents
  import opened UrlCanonical
  import opened UrlMeaning

  //////////////////////////////////////////////////////////////////////////////
  // Characters
  //////////////////////////////////////////////////////////////////////////////

  /** The code points of pchar (section 3.3 of RFC 3986) and '/', and of '?' in a query. */
  lemma SafeIs(c: char, query: bool)
    ensures Safe(c, query) <==>
      || 0x61 <= c as int <= 0x7A || 0x40 <= c as int <= 0x5A || 0x26 <= c as int <= 0x3B
      || c as int in {0x21, 0x24, 0x3D, 0x5F, 0x7E} || (query && c as int == 0x3F)
  {
    SafeMarks(c);
  }

  lemma SafeMarks(c: char)
    ensures c in "/:@!$&'()*+,;=-._~" <==>
      c as int in {0x21, 0x24, 0x26, 0x27, 0x28, 0x29, 0x2A, 0x2B, 0x2C, 0x2D, 0x2E, 0x2F, 0x3A, 0x3B, 0x3D, 0x40, 0x5F,
                   0x7E}
  {
    var marks := "/:@!$&'()*+,;=-._~";
    assert marks == ['/', ':', '@', '!', '$', '&', '\'', '(', ')', '*', '+', ',', ';', '=', '-', '.', '_', '~'];
    assert marks[0] == '/' && marks[1] == ':' && marks[2] == '@' && marks[3] == '!' && marks[4] == '$';
    assert marks[5] == '&' && marks[6] == '\'' && marks[7] == '(' && marks[8] == ')' && marks[9] == '*';
    assert marks[10] == '+' && marks[11] == ',' && marks[12] == ';' && marks[13] == '=' && marks[14] == '-';
    assert marks[15] == '.' && marks[16] == '_' && marks[17] == '~';
  }

  /** The characters that str.strip removes. */
  const SPACES: set<int> :=
    {9, 10, 11, 12, 13, 28, 29, 30, 31, 32, 133, 160, 5760, 8192, 8193, 8194, 8195, 8196, 8197, 8198, 8199, 8200, 8201,
     8202, 8232, 8233, 8239, 8287, 12288}

  lemma WhiteIs(c: char)
    ensures White(c) <==> c as int in SPACES
  {
  }

  //////////////////////////////////////////////////////////////////////////////
  // Bytes
  //////////////////////////////////////////////////////////////////////////////

  /** The bytes spell the characters of a text, one after the other. */
  ghost predicate Spelled(s: string, bytes: seq<nat>)
    decreases |s|
  {
    if s == "" then bytes == []
    else exists k: nat :: k <= |bytes| && Spells(bytes[..k], s[0] as int) && Spelled(s[1..], bytes[k..])
  }

  /** The length that the limits count is the number of bytes that spell the text. */
  lemma {:induction false} LengthIs(s: string, bytes: seq<nat>)
    requires Spelled(s, bytes)
    ensures Utf8Length(s) == |bytes|
    decreases |s|
  {
    if s != "" {
      var k: nat :| k <= |bytes| && Spells(bytes[..k], s[0] as int) && Spelled(s[1..], bytes[k..]);
      LengthIs(s[1..], bytes[k..]);
    }
  }

  /** No C0 control, no delete, and no C1 control in UTF-8. */
  predicate Quiet(bytes: seq<nat>) {
    && (forall b :: b in bytes ==> b >= 0x20 && b != 0x7F)
    && forall i :: 0 < i < |bytes| && bytes[i - 1] == 0xC2 ==> !(0x80 <= bytes[i] <= 0x9F)
  }

  lemma QuietParts(a: seq<nat>, b: seq<nat>)
    ensures Quiet(a + b) <==>
      Quiet(a) && Quiet(b) && !(a != [] && b != [] && a[|a| - 1] == 0xC2 && 0x80 <= b[0] <= 0x9F)
  {
    var c := a + b;
    if Quiet(c) {
      forall x | x in a || x in b ensures x >= 0x20 && x != 0x7F { assert x in c; }
      forall i | 0 < i < |a| && a[i - 1] == 0xC2 ensures !(0x80 <= a[i] <= 0x9F) {
        assert c[i - 1] == 0xC2 && c[i] == a[i];
      }
      forall i | 0 < i < |b| && b[i - 1] == 0xC2 ensures !(0x80 <= b[i] <= 0x9F) {
        assert c[|a| + i - 1] == 0xC2 && c[|a| + i] == b[i];
      }
      if a != [] && b != [] { assert c[|a| - 1] == a[|a| - 1] && c[|a|] == b[0]; }
    }
  }

  /** A spelled character begins with no continuation byte, ends with no lead byte of two, and holds a control only
      as a whole. */
  lemma SpelledEdges(bs: seq<nat>, c: char)
    requires Spells(bs, c as int)
    ensures bs != [] && !(0x80 <= bs[0] <= 0xBF) && bs[|bs| - 1] != 0xC2
    ensures Quiet(bs) <==> !Control(c)
  {
    if Quiet(bs) {
      assert bs[0] in bs;
      assert |bs| == 2 ==> !(bs[1 - 1] == 0xC2 && 0x80 <= bs[1] <= 0x9F);
    }
  }

  lemma FirstByte(s: string, bytes: seq<nat>)
    requires WellEscaped(s) && Means(s, bytes)
    ensures bytes != [] <==> s != ""
    ensures s != "" && s[0] == '%' ==> |s| >= 3 && bytes[0] == Byte(s, 0)
    ensures s != "" && s[0] != '%' ==> !(0x80 <= bytes[0] <= 0xBF)
  {
    hide Byte, Hex;
    if s != "" && s[0] != '%' {
      var k := CharOf(s, bytes);
      SpelledEdges(bytes[..k], s[0]);
    }
  }

  lemma EscapesShift(s: string, n: nat)
    requires WellEscaped(s) && s != "" && n == (if s[0] == '%' then 3 else 1)
    ensures n <= |s| && WellEscaped(s[n..])
    ensures NoEscapedControl(s) <==> (s[0] == '%' ==> !EscapedControl(s, 0)) && NoEscapedControl(s[n..])
  {
    hide HexValue;
    WellEscapedRest(s, n);
    var rest := s[n..];
    assert forall i :: 0 <= i < |rest| ==> rest[i] == s[n + i];
    assert s[0] == '%' ==> s[1] != '%' && s[2] != '%';
    forall i | 0 <= i < |rest| && rest[i] == '%' ensures EscapedControl(rest, i) <==> EscapedControl(s, n + i) {
      assert s[n + i] == '%';
      if n + i + 3 < |s| && s[n + i + 3] == '%' { assert rest[i + 3] == '%'; }
    }
    if NoEscapedControl(s) {
      forall i | 0 <= i < |rest| && rest[i] == '%' ensures !EscapedControl(rest, i) { assert s[n + i] == '%'; }
    }
    if NoEscapedControl(rest) && (s[0] == '%' ==> !EscapedControl(s, 0)) {
      forall i | 0 <= i < |s| && s[i] == '%' ensures !EscapedControl(s, i) {
        if i >= n { assert rest[i - n] == '%'; }
      }
    }
  }

  /** A text is free of raw and escaped controls exactly when the bytes that it stands for are. */
  lemma {:induction false} ControlsAre(s: string, bytes: seq<nat>)
    requires WellEscaped(s) && Means(s, bytes)
    ensures (NoEscapedControl(s) && forall c :: c in s ==> !Control(c)) <==> Quiet(bytes)
    decreases |s|
  {
    hide Byte, Hex, Quiet, Control, Spells, EscapedControl;
    if s == "" {
      assert Quiet([]) by { NothingQuiet(); }
    } else if s[0] == '%' {
      EscapesShift(s, 3);
      MeansEscape(s, bytes);
      ControlsAre(s[3..], bytes[1..]);
      QuietParts([Byte(s, 0)], bytes[1..]);
      FirstByte(s[3..], bytes[1..]);
      EscapeQuiet(s, bytes[1..]);
      HexPlain(s);
      assert s == s[..3] + s[3..];
    } else {
      var k := CharOf(s, bytes);
      EscapesShift(s, 1);
      ControlsAre(s[1..], bytes[k..]);
      SpelledEdges(bytes[..k], s[0]);
      QuietParts(bytes[..k], bytes[k..]);
      assert bytes == bytes[..k] + bytes[k..] && s == [s[0]] + s[1..];
    }
  }

  lemma NothingQuiet()
    ensures Quiet([])
  {
  }

  lemma HexPlain(s: string)
    requires WellEscaped(s) && s != "" && s[0] == '%'
    ensures |s| >= 3 && forall c :: c in s[..3] ==> !Control(c)
  {
  }

  lemma EscapeQuiet(s: string, rest: seq<nat>)
    requires WellEscaped(s) && s != "" && s[0] == '%' && (rest != [] <==> s[3..] != "")
    requires s[3..] != "" && s[3] == '%' ==> |s[3..]| >= 3 && rest[0] == Byte(s[3..], 0)
    requires s[3..] != "" && s[3] != '%' ==> !(0x80 <= rest[0] <= 0xBF)
    ensures !EscapedControl(s, 0) <==>
              Quiet([Byte(s, 0)]) && !(rest != [] && Byte(s, 0) == 0xC2 && 0x80 <= rest[0] <= 0x9F)
  {
    hide HexValue;
    var b := Byte(s, 0);
    assert b in [b];
  }

  /** Which texts pass the checks on the raw input: not empty, at most 2,048 bytes, no white space at either end, no
      backslash, two hexadecimal digits behind every percent sign, and no control among the bytes it stands for. */
  lemma RawIs(raw: string, spelled: seq<nat>, bytes: seq<nat>)
    requires Spelled(raw, spelled) && Means(raw, bytes)
    ensures RawFault(raw).None? <==>
      && raw != "" && |spelled| <= 2048
      && raw[0] as int !in SPACES && raw[|raw| - 1] as int !in SPACES && '\\' !in raw
      && (forall i :: 0 <= i < |raw| && raw[i] == '%' ==> i + 2 < |raw| && Hex(raw[i + 1]) && Hex(raw[i + 2]))
      && Quiet(bytes)
  {
    hide White, Control, Hex, EscapedControl, Quiet, Means, Spelled, Utf8Length;
    LengthIs(raw, spelled);
    if raw != "" {
      WhiteIs(raw[0]);
      WhiteIs(raw[|raw| - 1]);
    }
    if WellEscaped(raw) { ControlsAre(raw, bytes); }
  }
}
