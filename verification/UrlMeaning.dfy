/** What an encoded component stands for, read by the scalar formulas of section 3 of RFC 3629. */
module UrlMeaning {
  import opened Outcomes
  import opened Texts
  import opened UrlHosts
  import opened UrlComponents
  import opened UrlParse
  import opened UrlCanonical

  //////////////////////////////////////////////////////////////////////////////
  // Reading UTF-8
  //////////////////////////////////////////////////////////////////////////////

  predicate Tail6(b: nat) { 0x80 <= b <= 0xBF }

  /** The bytes spell the scalar: lead and continuation ranges, the scalar they carry, and no overlong form. */
  predicate Spells(bs: seq<nat>, x: nat) {
    match |bs|
    case 1 => bs[0] < 0x80 && x == bs[0]
    case 2 => 0xC2 <= bs[0] <= 0xDF && Tail6(bs[1]) && x == (bs[0] - 0xC0) * 64 + (bs[1] - 0x80)
    case 3 =>
      0xE0 <= bs[0] <= 0xEF && Tail6(bs[1]) && Tail6(bs[2]) && 0x800 <= x
      && x == (bs[0] - 0xE0) * 4096 + (bs[1] - 0x80) * 64 + (bs[2] - 0x80)
    case 4 =>
      0xF0 <= bs[0] <= 0xF4 && Tail6(bs[1]) && Tail6(bs[2]) && Tail6(bs[3]) && 0x10000 <= x <= 0x10FFFF
      && x == (bs[0] - 0xF0) * 262144 + (bs[1] - 0x80) * 4096 + (bs[2] - 0x80) * 64 + (bs[3] - 0x80)
    case _ => false
  }

  lemma SpellsOnce(a: seq<nat>, b: seq<nat>, x: nat)
    requires Spells(a, x) && Spells(b, x)
    ensures a == b
  {
    assert |a| == |b|;
  }

  lemma Utf8Spells(c: char)
    ensures Spells(Utf8(c), c as int)
  {
    var x := c as int;
    if 0x800 <= x < 0x10000 {
      assert x / 0x40 / 0x40 == x / 0x1000;
    } else if x >= 0x10000 {
      assert x / 0x40 / 0x40 == x / 0x1000 && x / 0x1000 / 0x40 == x / 0x40000;
      assert x < 0x110000;
    }
  }

  //////////////////////////////////////////////////////////////////////////////
  // What encoding does
  //////////////////////////////////////////////////////////////////////////////

  /** e[..3 * |bs|] is an upper-case escape for each byte. */
  ghost predicate Escapes(e: string, bs: seq<nat>) {
    && 3 * |bs| <= |e|
    && forall i :: 0 <= i < |bs| ==>
         e[3 * i] == '%' && UpperHex(e[3 * i + 1]) && UpperHex(e[3 * i + 2]) && Byte(e, 3 * i) == bs[i]
  }

  /** e is s with its escapes in upper case, its safe characters as they are, and every other character replaced
      by the escapes of the bytes that spell it. */
  ghost predicate Encodes(s: string, e: string, query: bool)
    decreases |s|
  {
    if s == "" then e == ""
    else if s[0] == '%' then
      |s| >= 3 && Hex(s[1]) && Hex(s[2]) && Escapes(e, [Byte(s, 0)]) && Encodes(s[3..], e[3..], query)
    else if Safe(s[0], query) then e != "" && e[0] == s[0] && Encodes(s[1..], e[1..], query)
    else
      exists bs: seq<nat> ::
        Spells(bs, s[0] as int) && Escapes(e, bs) && 3 * |bs| <= |e| && Encodes(s[1..], e[3 * |bs|..], query)
  }

  lemma {:induction false} QuotedEscapes(bs: seq<nat>, rest: string)
    requires AreBytes(bs)
    ensures var e := QuoteBytes(bs) + rest;
      |QuoteBytes(bs)| == 3 * |bs| && Escapes(e, bs) && e[3 * |bs|..] == rest
  {
    hide HexValue, UpperHex, QuoteByte;
    if bs != [] {
      assert bs[0] in bs && forall b :: b in bs[1..] ==> b in bs;
      var first, after := QuoteByte(bs[0]), QuoteBytes(bs[1..]) + rest;
      QuotedEscapes(bs[1..], rest);
      QuoteByteIs(bs[0]);
      var e := QuoteBytes(bs) + rest;
      assert e == first + after;
      EscapesInFront(e, bs);
    }
  }

  /** One escape in front of the others. */
  lemma EscapesInFront(e: string, bs: seq<nat>)
    requires bs != [] && |e| >= 3 && e[0] == '%' && UpperHex(e[1]) && UpperHex(e[2]) && Byte(e, 0) == bs[0]
    requires Escapes(e[3..], bs[1..])
    ensures Escapes(e, bs)
  {
    hide HexValue, UpperHex;
    forall i | 0 <= i < |bs|
      ensures e[3 * i] == '%' && UpperHex(e[3 * i + 1]) && UpperHex(e[3 * i + 2]) && Byte(e, 3 * i) == bs[i]
    {
      if i > 0 {
        assert bs[1..][i - 1] == bs[i] && e[3..][3 * (i - 1)] == e[3 * i];
      }
    }
  }

  /** Encoding a component does what it should to every escape and every character. */
  lemma {:induction false} EncodeEncodes(s: string, query: bool)
    requires WellEscaped(s)
    ensures Encodes(s, Encode(s, query), query)
    decreases |s|
  {
    hide HexValue, UpperHex, Safe, HexUp, Utf8, QuoteBytes, Encode, Hex, Escapes, Spells;
    if s == "" {
      EncodeEmpty(query);
    } else {
      EncodeStep(s, query);
      var n := if s[0] == '%' then 3 else 1;
      WellEscapedRest(s, n);
      EncodeEncodes(s[n..], query);
      var e := Encode(s, query);
      if s[0] == '%' {
        EscapeKept(s, e, Encode(s[3..], query));
      } else if !Safe(s[0], query) {
        CharSpelled(s[0], query, Encode(s[1..], query));
        EscapesLength(e, Utf8(s[0]));
      }
    }
  }

  lemma WellEscapedRest(s: string, n: nat)
    requires WellEscaped(s) && n <= |s|
    ensures WellEscaped(s[n..])
  {
    hide Hex;
    forall i | 0 <= i < |s[n..]| && s[n..][i] == '%'
      ensures i + 2 < |s[n..]| && Hex(s[n..][i + 1]) && Hex(s[n..][i + 2])
    {
      assert s[n + i] == '%';
    }
  }

  lemma EscapeKept(s: string, e: string, rest: string)
    requires |s| >= 3 && Hex(s[1]) && Hex(s[2]) && e == ['%', HexUp(s[1]), HexUp(s[2])] + rest
    ensures Escapes(e, [Byte(s, 0)]) && e[3..] == rest
  {
    HexUpKeeps(s[1]);
    HexUpKeeps(s[2]);
    hide HexUp, Hex, HexValue, UpperHex;
  }

  lemma CharSpelled(c: char, query: bool, rest: string)
    requires c != '%' && !Safe(c, query)
    ensures var e := QuoteChar(c, query) + rest;
      Spells(Utf8(c), c as int) && Escapes(e, Utf8(c)) && e[3 * |Utf8(c)|..] == rest
  {
    hide Utf8, QuoteBytes, Escapes, Spells;
    Utf8Spells(c);
    Utf8Bytes(c);
    QuotedEscapes(Utf8(c), rest);
  }

  //////////////////////////////////////////////////////////////////////////////
  // It does nothing else
  //////////////////////////////////////////////////////////////////////////////

  lemma UpperHexOnce(a: char, b: char)
    requires UpperHex(a) && UpperHex(b) && HexValue(a) == HexValue(b)
    ensures a == b
  {
  }

  lemma ByteOnce(a: string, b: string, i: nat)
    requires i + 2 < |a| && i + 2 < |b| && Byte(a, i) == Byte(b, i)
    requires UpperHex(a[i + 1]) && UpperHex(a[i + 2]) && UpperHex(b[i + 1]) && UpperHex(b[i + 2])
    ensures a[i + 1] == b[i + 1] && a[i + 2] == b[i + 2]
  {
    HexValueSmall(a[i + 1]);
    HexValueSmall(a[i + 2]);
    HexValueSmall(b[i + 1]);
    HexValueSmall(b[i + 2]);
    hide HexValue, UpperHex;
    UpperHexOnce(a[i + 1], b[i + 1]);
    UpperHexOnce(a[i + 2], b[i + 2]);
  }

  lemma HexValueSmall(c: char)
    ensures HexValue(c) < 16
  {
  }

  lemma {:induction false} EscapesOnce(a: string, b: string, bs: seq<nat>)
    requires Escapes(a, bs) && Escapes(b, bs)
    ensures a[..3 * |bs|] == b[..3 * |bs|]
  {
    hide HexValue, UpperHex;
    forall k | 0 <= k < 3 * |bs| ensures a[k] == b[k] {
      var i := k / 3;
      assert k == 3 * i || k == 3 * i + 1 || k == 3 * i + 2;
      assert a[3 * i] == '%' && b[3 * i] == '%';
      ByteOnce(a, b, 3 * i);
    }
  }

  lemma SameParts(a: string, b: string, n: nat)
    requires n <= |a| && n <= |b| && a[..n] == b[..n] && a[n..] == b[n..]
    ensures a == b
  {
    assert a == a[..n] + a[n..] && b == b[..n] + b[n..];
  }

  /** A component has one encoding. */
  lemma {:induction false} EncodesOnce(s: string, a: string, b: string, query: bool)
    requires Encodes(s, a, query) && Encodes(s, b, query)
    ensures a == b
    decreases |s|
  {
    hide HexValue, UpperHex, Safe, Hex, Spells;
    if s == "" {
    } else if s[0] == '%' {
      EncodesOnce(s[3..], a[3..], b[3..], query);
      EscapesOnce(a, b, [Byte(s, 0)]);
      SameParts(a, b, 3);
    } else if Safe(s[0], query) {
      EncodesOnce(s[1..], a[1..], b[1..], query);
      SameParts(a, b, 1);
    } else {
      var p: seq<nat> :| Spells(p, s[0] as int) && Escapes(a, p) && Encodes(s[1..], a[3 * |p|..], query);
      var q: seq<nat> :| Spells(q, s[0] as int) && Escapes(b, q) && Encodes(s[1..], b[3 * |q|..], query);
      SpellsOnce(p, q, s[0] as int);
      EncodesOnce(s[1..], a[3 * |p|..], b[3 * |p|..], query);
      EscapesOnce(a, b, p);
      SameParts(a, b, 3 * |p|);
    }
  }

  //////////////////////////////////////////////////////////////////////////////
  // Bytes before and after
  //////////////////////////////////////////////////////////////////////////////

  /** The bytes that a component stands for: those of its escapes, and those that spell its characters. */
  ghost predicate Means(s: string, bytes: seq<nat>)
    decreases |s|
  {
    if s == "" then bytes == []
    else if s[0] == '%' && |s| >= 3 then bytes != [] && bytes[0] == Byte(s, 0) && Means(s[3..], bytes[1..])
    else exists k: nat :: k <= |bytes| && Spells(bytes[..k], s[0] as int) && Means(s[1..], bytes[k..])
  }

  lemma SafeAscii(c: char, query: bool)
    requires Safe(c, query)
    ensures c as int < 0x80 && c != '%'
  {
  }

  /** A text that starts with the escapes of some bytes stands for those bytes and what follows. */
  lemma {:induction false} EscapesMean(e: string, bs: seq<nat>, bytes: seq<nat>)
    requires Escapes(e, bs) && 3 * |bs| <= |e| && Means(e[3 * |bs|..], bytes)
    ensures Means(e, bs + bytes)
    decreases |bs|
  {
    hide Escapes, Spells, Byte;
    EscapesLength(e, bs);
    if bs == [] {
      assert bs + bytes == bytes && e[0..] == e;
    } else {
      FirstOfEscapes(e, bs);
      assert e[3..][3 * |bs[1..]|..] == e[3 * |bs|..];
      EscapesMean(e[3..], bs[1..], bytes);
      assert (bs + bytes)[1..] == bs[1..] + bytes;
    }
  }

  lemma EscapesLength(e: string, bs: seq<nat>)
    requires Escapes(e, bs)
    ensures 3 * |bs| <= |e|
  {
  }

  lemma FirstOfEscapes(e: string, bs: seq<nat>)
    requires Escapes(e, bs) && bs != []
    ensures |e| >= 3 && e[0] == '%' && Byte(e, 0) == bs[0] && Escapes(e[3..], bs[1..])
  {
    hide HexValue, UpperHex;
    assert e[3 * 0] == '%';
    var rest := e[3..];
    forall i | 0 <= i < |bs[1..]|
      ensures rest[3 * i] == '%' && UpperHex(rest[3 * i + 1]) && UpperHex(rest[3 * i + 2])
              && Byte(rest, 3 * i) == bs[1..][i]
    {
      assert e[3 * (i + 1)] == '%' && Byte(e, 3 * (i + 1)) == bs[i + 1];
    }
  }

  lemma MeansEscape(s: string, bytes: seq<nat>)
    requires |s| >= 3 && s[0] == '%' && Means(s, bytes)
    ensures bytes == [Byte(s, 0)] + bytes[1..] && Means(s[3..], bytes[1..])
  {
    hide Byte;
  }

  lemma CharMeans(s: string, bytes: seq<nat>, k: nat)
    requires s != "" && s[0] != '%' && k <= |bytes| && Spells(bytes[..k], s[0] as int) && Means(s[1..], bytes[k..])
    ensures Means(s, bytes)
  {
    hide Spells;
  }

  /** Encoding keeps the bytes that a component stands for. */
  lemma {:induction false} EncodingMeans(s: string, e: string, query: bool, bytes: seq<nat>)
    requires Encodes(s, e, query) && Means(s, bytes)
    ensures Means(e, bytes)
    decreases |s|
  {
    hide Byte, Hex, Safe, Spells, Escapes, Means;
    if s == "" {
      NothingMeans(bytes);
    } else if s[0] == '%' {
      EscapesLength(e, [Byte(s, 0)]);
      MeansEscape(s, bytes);
      EncodingMeans(s[3..], e[3..], query, bytes[1..]);
      EscapesMean(e, [Byte(s, 0)], bytes[1..]);
    } else {
      var k := CharOf(s, bytes);
      if Safe(s[0], query) {
        SafeAscii(s[0], query);
        EncodingMeans(s[1..], e[1..], query, bytes[k..]);
        CharMeans(e, bytes, k);
      } else {
        var bs := EncodedChar(s, e, query);
        SpellsOnce(bs, bytes[..k], s[0] as int);
        EncodingMeans(s[1..], e[3 * |bs|..], query, bytes[k..]);
        EscapesMean(e, bs, bytes[k..]);
        assert bs + bytes[k..] == bytes;
      }
    }
  }

  lemma NothingMeans(bytes: seq<nat>)
    ensures Means("", bytes) <==> bytes == []
  {
  }

  lemma EncodedChar(s: string, e: string, query: bool) returns (bs: seq<nat>)
    requires s != "" && s[0] != '%' && !Safe(s[0], query) && Encodes(s, e, query)
    ensures Spells(bs, s[0] as int) && Escapes(e, bs) && 3 * |bs| <= |e| && Encodes(s[1..], e[3 * |bs|..], query)
  {
    hide Spells, Escapes, Safe;
    bs :| Spells(bs, s[0] as int) && Escapes(e, bs) && 3 * |bs| <= |e| && Encodes(s[1..], e[3 * |bs|..], query);
  }

  /** Every text stands for some bytes, and for no others. */
  lemma {:induction false} HasMeaning(s: string) returns (bytes: seq<nat>)
    ensures Means(s, bytes)
    decreases |s|
  {
    hide Byte, Spells, Utf8, Means;
    if s == "" {
      bytes := [];
      NothingMeans(bytes);
    } else if s[0] == '%' && |s| >= 3 {
      var rest := HasMeaning(s[3..]);
      bytes := [Byte(s, 0)] + rest;
      EscapeMeans(s, bytes);
    } else {
      var rest := HasMeaning(s[1..]);
      Utf8Spells(s[0]);
      bytes := Utf8(s[0]) + rest;
      var k := |Utf8(s[0])|;
      assert bytes[..k] == Utf8(s[0]) && bytes[k..] == rest;
      CharStands(s, bytes, k);
    }
  }

  lemma EscapeMeans(s: string, bytes: seq<nat>)
    requires |s| >= 3 && s[0] == '%' && bytes != [] && bytes[0] == Byte(s, 0) && Means(s[3..], bytes[1..])
    ensures Means(s, bytes)
  {
    hide Byte;
  }

  lemma CharStands(s: string, bytes: seq<nat>, k: nat)
    requires s != "" && !(s[0] == '%' && |s| >= 3)
    requires k <= |bytes| && Spells(bytes[..k], s[0] as int) && Means(s[1..], bytes[k..])
    ensures Means(s, bytes)
  {
    hide Spells, Byte;
  }

  lemma {:induction false} MeansOnce(s: string, a: seq<nat>, b: seq<nat>)
    requires Means(s, a) && Means(s, b)
    ensures a == b
    decreases |s|
  {
    hide Byte, Spells, Means;
    if s == "" {
      NothingMeans(a);
      NothingMeans(b);
    } else if s[0] == '%' && |s| >= 3 {
      MeansEscape(s, a);
      MeansEscape(s, b);
      MeansOnce(s[3..], a[1..], b[1..]);
    } else {
      var k := CharOf(s, a);
      var m := CharOf(s, b);
      SpellsOnce(a[..k], b[..m], s[0] as int);
      MeansOnce(s[1..], a[k..], b[m..]);
      assert a == a[..k] + a[k..] && b == b[..m] + b[m..];
    }
  }

  lemma CharOf(s: string, bytes: seq<nat>) returns (k: nat)
    requires s != "" && !(s[0] == '%' && |s| >= 3) && Means(s, bytes)
    ensures k <= |bytes| && Spells(bytes[..k], s[0] as int) && Means(s[1..], bytes[k..])
  {
    hide Spells, Byte;
    k :| k <= |bytes| && Spells(bytes[..k], s[0] as int) && Means(s[1..], bytes[k..]);
  }

  //////////////////////////////////////////////////////////////////////////////
  // The result of the canonicalizer, part by part
  //////////////////////////////////////////////////////////////////////////////

  /** The port that a canonical text keeps. */
  function KeptPort(scheme: string, port: Option<nat>): Option<nat> {
    if port == Some(if scheme == "http" then 80 else 443) then None else port
  }

  lemma DigitsAfterColon(a: string, text: string)
    requires text != "" && AllDigits(text)
    ensures AfterLast(a + ":" + text, ':') == text
  {
    LastPart(a, text, ':');
  }

  /** The port that the library reads is the one that the canonicalizer reads. */
  lemma PortsAgree(netloc: string, isIp: bool)
    requires '@' !in netloc && BracketsOk(netloc) && ExplicitPort(netloc, isIp).Ok? && PortField(netloc).Ok?
    requires !isIp ==> ':' !in HostPort(netloc).0
    ensures PortField(netloc) == ExplicitPort(netloc, isIp)
  {
    hide LiteralOk, AfterLast, Until, Value, HostPort, BracketsOk, Cut;
    AfterLastSplits(netloc, '@');
    if '[' in netloc {
      BracketedPorts(netloc, isIp);
    } else {
      PlainPorts(netloc);
      if ':' in netloc {
        CutInverse(netloc, ':');
        var text := Cut(netloc, ':').1;
        if text != "" && AllDigits(text) {
          DigitsAfterColon(Cut(netloc, ':').0, text);
        } else {
          assert text == "";
          NoPort(Cut(netloc, ':').0);
        }
      } else {
        CutNone(netloc, ':');
      }
    }
  }

  lemma NoPort(a: string)
    ensures AfterLast(a + ":" + "", ':') == ""
  {
    assert a + ":" + "" == a + ":";
  }

  lemma PlainPorts(netloc: string)
    requires '@' !in netloc && BracketsOk(netloc) && '[' !in netloc
    ensures HostPort(netloc) == Cut(netloc, ':') && (netloc != "" ==> netloc[0] != '[')
  {
    hide LiteralOk, Cut, AfterLast, Until;
    AfterLastSplits(netloc, '@');
    assert ']' !in netloc;
    PlainHostPort(netloc);
    if netloc != "" { assert netloc[0] in netloc; }
  }

  lemma BracketParts(netloc: string)
    requires '@' !in netloc && BracketsOk(netloc) && '[' in netloc
    ensures netloc != "" && netloc[0] == '[' && ']' in netloc
    ensures var inside := Cut(netloc[1..], ']');
      && HostPort(netloc) == (inside.0, Cut(inside.1, ':').1)
      && netloc == "[" + inside.0 + "]" + inside.1 && ']' !in inside.0
      && (inside.1 == "" || inside.1[0] == ':')
  {
    hide LiteralOk, Cut, AfterLast, Until;
    AfterLastSplits(netloc, '@');
    assert Until(netloc, {'['}) == 0;
    var rest := netloc[1..];
    assert netloc == ['['] + rest;
    CutInverse(rest, ']');
  }

  lemma BracketedPorts(netloc: string, isIp: bool)
    requires '@' !in netloc && BracketsOk(netloc) && '[' in netloc
    requires ExplicitPort(netloc, isIp).Ok? && PortField(netloc).Ok? && (!isIp ==> ':' !in HostPort(netloc).0)
    ensures PortField(netloc) == ExplicitPort(netloc, isIp)
  {
    hide LiteralOk, AfterLast, Value, HostPort, BracketsOk, Cut, Until;
    BracketParts(netloc);
    var inside := Cut(netloc[1..], ']');
    UntilIs(netloc, {']'}, |inside.0| + 1);
    assert netloc[|inside.0| + 2..] == inside.1;
    if inside.1 == "" {
      CutNone(inside.1, ':');
      if !isIp { assert ':' !in netloc; }
    } else {
      var text := inside.1[1..];
      CutAt("", ':', text);
      assert inside.1 == "" + ":" + text;
      if !isIp {
        var front := "[" + inside.0 + "]";
        assert netloc == front + ":" + text;
        if text == "" {
          NoPort(front);
        } else {
          DigitsAfterColon(front, text);
        }
      }
    }
  }

  /** What an accepted text becomes: the scheme and the host in lower case, the port unless it is the default one,
      the path ("/" if there is none) and the query encoded, and no fragment. */
  lemma CanonicalParts(alabel: string -> bool, raw: string, u: string)
    requires Canonicalize(alabel, raw) == Ok(u)
    ensures Split(raw).Ok? && Split(u).Ok?
    ensures var p, q := Split(raw).value, Split(u).value;
      && q.scheme == p.scheme && q.scheme in ["http", "https"]
      && Hostname(q.netloc) == Lower(Hostname(p.netloc))
      && PortField(p.netloc).Ok? && PortField(q.netloc) == Ok(KeptPort(p.scheme, PortField(p.netloc).value))
      && Encodes(if p.path == "" then "/" else p.path, q.path, false)
      && Encodes(p.query, q.query, true) && q.fragment == ""
      && ('?' in u <==> '?' in Cut(raw, '#').0)
  {
    hide RawFault, Split, ValidatedHost, Hostname, PortField, ExplicitPort, Assemble, Good, Render, HostOk, IdentityOf,
      Encodes, Authority, BracketsOk, HostPort, Lower, Cut, QueryText;
    var p := Split(raw).value;
    var (host, isIp) := ValidatedHost(alabel, Hostname(p.netloc)).value;
    var port := ExplicitPort(p.netloc, isIp).value;
    ValidatedIsGood(alabel, Hostname(p.netloc));
    HostChars(alabel, host);
    AssembleIsRender(p, raw, host, isIp, port);
    AcceptedIsGood(alabel, raw, p, host, isIp, port);
    var id := IdentityOf(p, raw, host, port);
    AcceptedPorts(alabel, raw, p, host, isIp);
    ExplicitPortRange(p.netloc, isIp);
    GoodParts(alabel, id, u);
    PartsOfIdentity(p, raw, host, port);
    PathEncoded(raw, p);
  }

  lemma AcceptedPorts(alabel: string -> bool, raw: string, p: Parsed, host: string, isIp: bool)
    requires Split(raw) == Ok(p) && p.scheme != "" && p.netloc != "" && '@' !in p.netloc
    requires ValidatedHost(alabel, Hostname(p.netloc)) == Ok((host, isIp))
    requires PortField(p.netloc).Ok? && ExplicitPort(p.netloc, isIp).Ok?
    ensures PortField(p.netloc) == ExplicitPort(p.netloc, isIp)
  {
    hide Split, ValidatedHost, Hostname, PortField, ExplicitPort, HostOk, BracketsOk, HostPort, Lower, Shape, Tail;
    var name, tail := SplitInverse(raw);
    ValidatedIsGood(alabel, Hostname(p.netloc));
    HostChars(alabel, host);
    if !isIp && ':' in HostPort(p.netloc).0 {
      ColonStays(p.netloc);
    }
    PortsAgree(p.netloc, isIp);
  }

  lemma ColonStays(netloc: string)
    requires ':' in HostPort(netloc).0
    ensures ':' in Lower(Hostname(netloc))
  {
    hide HostPort, Until;
    var host := HostPort(netloc).0;
    var i :| 0 <= i < |host| && host[i] == ':';
    assert Lower(Hostname(netloc))[i] == ':';
  }

  /** Splitting canonical text. */
  lemma GoodParts(alabel: string -> bool, id: Identity, u: string)
    requires Good(alabel, id) && u == Render(id)
    ensures Split(u).Ok?
    ensures var q := Split(u).value;
      && q.scheme == id.scheme && Hostname(q.netloc) == id.host && PortField(q.netloc) == Ok(id.port)
      && q.path == id.path && q.query == id.query.GetOr("") && q.fragment == "" && ('?' in u <==> id.query.Some?)
  {
    hide HostOk, ComponentOk, Split, BracketsOk, Authority, Tail, HostPort, Hostname, PortField, Render, Cut, Shape,
      QueryText;
    GoodShape(alabel, id);
    AuthoritySplits(alabel, id.host, id.port);
    PortFieldGood(alabel, id.host, id.port);
    QueryMarks(alabel, id);
  }

  lemma QueryMarks(alabel: string -> bool, id: Identity)
    requires Good(alabel, id)
    ensures '?' in Render(id) <==> id.query.Some?
  {
    hide HostOk, ComponentOk, Authority, AuthorityChar, HostPort, Hostname, BracketsOk;
    var netloc, tail := Authority(id.host, id.port), id.path + QueryText(id.query);
    TailNoFragment(alabel, id);
    AuthoritySplits(alabel, id.host, id.port);
    var head := id.scheme + "://" + netloc;
    forall c | c in head ensures c != '?' {
      if c in netloc { AuthorityUrlChar(c); }
    }
    assert Render(id) == head + tail;
  }

  lemma PartsOfIdentity(p: Parsed, raw: string, host: string, port: Option<nat>)
    ensures var id := IdentityOf(p, raw, host, port);
      && id.scheme == p.scheme && id.host == host
      && id.port == KeptPort(p.scheme, port)
      && id.path == Encode(if p.path == "" then "/" else p.path, false)
      && id.query == if '?' in Cut(raw, '#').0 then Some(Encode(p.query, true)) else None
  {
    hide Encode, Cut;
  }

  lemma PathEncoded(raw: string, p: Parsed)
    requires RawFault(raw).None? && Split(raw) == Ok(p) && p.scheme != "" && p.netloc != ""
    ensures Encodes(if p.path == "" then "/" else p.path, Encode(if p.path == "" then "/" else p.path, false), false)
    ensures Encodes(p.query, Encode(p.query, true), true) && ('?' !in Cut(raw, '#').0 ==> p.query == "")
    ensures Encode("", true) == ""
  {
    hide Split, Encodes, Encode, Tail, BracketsOk, WellEscaped, NoEscapedControl, Control, Utf8Length,
      Strips, Cut, Lower;
    var name, tail := SplitInverse(raw);
    TailOfNames(Lower(name), p.netloc, tail);
    var at := |name| + 3 + |p.netloc|;
    assert raw[at..] == tail;
    TailSlices(raw, at);
    MarkerInTail(raw, name, p.netloc, tail);
    SlashOk();
    EncodeEncodes(if p.path == "" then "/" else p.path, false);
    EncodeEncodes(p.query, true);
    EncodeEmpty(true);
  }

  /** Path and query of an accepted text stand for the same bytes before and after. */
  lemma CanonicalMeaning(alabel: string -> bool, raw: string, u: string, path: seq<nat>, query: seq<nat>)
    requires Canonicalize(alabel, raw) == Ok(u)
    requires Split(raw).Ok?
    requires var p := Split(raw).value; Means(if p.path == "" then "/" else p.path, path) && Means(p.query, query)
    ensures Split(u).Ok? && Means(Split(u).value.path, path) && Means(Split(u).value.query, query)
  {
    hide Canonicalize, Split, Means, Encodes, Hostname, PortField, Lower, Cut;
    CanonicalParts(alabel, raw, u);
    var p, q := Split(raw).value, Split(u).value;
    EncodingMeans(if p.path == "" then "/" else p.path, q.path, false, path);
    EncodingMeans(p.query, q.query, true, query);
  }

  //////////////////////////////////////////////////////////////////////////////
  // Which texts are accepted
  //////////////////////////////////////////////////////////////////////////////

  lemma LastIsColon(a: string, text: string)
    ensures var s := a + ":" + text; s[|s| - 1] == ':' <==> text == "" || text[|text| - 1] == ':'
  {
  }

  lemma DigitsLast(text: string)
    requires text != "" && AllDigits(text)
    ensures text[|text| - 1] != ':'
  {
    assert text[|text| - 1] in text;
  }

  /** A readable port is explicit unless it is 0 or empty behind its colon. */
  lemma PortAccepted(netloc: string, isIp: bool)
    requires netloc != "" && '@' !in netloc && BracketsOk(netloc) && PortField(netloc).Ok?
    requires !isIp ==> ':' !in HostPort(netloc).0
    ensures ExplicitPort(netloc, isIp).Ok? <==> PortField(netloc).value != Some(0) && netloc[|netloc| - 1] != ':'
  {
    hide LiteralOk, AfterLast, Until, Value, HostPort, BracketsOk, Cut;
    if '[' in netloc {
      BracketParts(netloc);
      var inside := Cut(netloc[1..], ']');
      UntilIs(netloc, {']'}, |inside.0| + 1);
      assert netloc[|inside.0| + 2..] == inside.1;
      BracketedAccepted(netloc, isIp, inside.0, inside.1);
    } else {
      PlainPorts(netloc);
      if ':' in netloc {
        CutInverse(netloc, ':');
        var host, text := Cut(netloc, ':').0, Cut(netloc, ':').1;
        LastIsColon(host, text);
        if text != "" {
          DigitsAfterColon(host, text);
          DigitsLast(text);
        } else {
          NoPort(host);
        }
      } else {
        CutNone(netloc, ':');
        assert netloc[|netloc| - 1] in netloc;
      }
    }
  }

  /** The explicit port of a bracketed authority. */
  lemma BracketedExplicit(netloc: string, isIp: bool, host: string, tail: string)
    requires netloc == "[" + host + "]" + tail && Until(netloc, {']'}) == |host| + 1
    requires (tail == "" || tail[0] == ':') && (!isIp ==> ':' !in host) && (tail != "" ==> ':' !in tail[1..])
    ensures ExplicitPort(netloc, isIp) == if tail == "" then Ok(None) else PortOf(tail[1..])
  {
    hide AfterLast, Until, PortOf;
    assert netloc[|host| + 2..] == tail && netloc[0] == '[';
    if !isIp {
      if tail == "" {
        assert ':' !in netloc;
      } else {
        var front, text := "[" + host + "]", tail[1..];
        assert netloc == front + ":" + text && netloc[|front|] == ':';
        LastPart(front, text, ':');
      }
    }
  }

  lemma BracketedAccepted(netloc: string, isIp: bool, host: string, tail: string)
    requires netloc == "[" + host + "]" + tail && Until(netloc, {']'}) == |host| + 1
    requires HostPort(netloc) == (host, Cut(tail, ':').1) && PortField(netloc).Ok? && (!isIp ==> ':' !in host)
    requires tail == "" || tail[0] == ':'
    ensures ExplicitPort(netloc, isIp).Ok? <==> PortField(netloc).value != Some(0) && netloc[|netloc| - 1] != ':'
  {
    hide Until, Value, HostPort, Cut, ExplicitPort;
    if tail == "" {
      CutNone(tail, ':');
      BracketedExplicit(netloc, isIp, host, tail);
    } else {
      var front, text := "[" + host + "]", tail[1..];
      CutAt("", ':', text);
      assert tail == "" + ":" + text && netloc == front + ":" + text;
      BracketedExplicit(netloc, isIp, host, tail);
      LastIsColon(front, text);
      if text != "" {
        DigitsLast(text);
      }
    }
  }

  /** The host check passes exactly the texts of ASCII characters whose lower case is a good host. */
  lemma HostAccepted(alabel: string -> bool, host: string)
    ensures ValidatedHost(alabel, host).Ok? <==> (forall c :: c in host ==> Ascii(c)) && HostOk(alabel, Lower(host))
  {
    hide Ipv4, Ipv6, LabelsOk, DottedNumeric, Lower, HostOk;
    if ValidatedHost(alabel, host).Ok? {
      ValidatedIsGood(alabel, host);
    }
    if (forall c :: c in host ==> Ascii(c)) && HostOk(alabel, Lower(host)) {
      GoodIsValidated(alabel, Lower(host));
      LowerTwice(host);
      HostChars(alabel, Lower(host));
      LowerNonempty(host);
    }
  }

  lemma LowerNonempty(host: string)
    ensures Lower(host) != "" <==> host != ""
  {
  }

  /** Exactly which texts the canonicalizer accepts. */
  lemma AcceptsExactly(alabel: string -> bool, raw: string)
    ensures Canonicalize(alabel, raw).Ok? <==>
      && RawFault(raw).None? && Split(raw).Ok?
      && (var p := Split(raw).value;
          && p.scheme in ["http", "https"] && p.netloc != "" && '@' !in p.netloc
          && (var host := Hostname(p.netloc);
              && (forall c :: c in host ==> Ascii(c)) && HostOk(alabel, Lower(host))
              && PortField(p.netloc).Ok? && PortField(p.netloc).value != Some(0) && p.netloc[|p.netloc| - 1] != ':'
              && |Render(IdentityOf(p, raw, Lower(host), PortField(p.netloc).value))| <= 2048))
  {
    hide RawFault, Split, ValidatedHost, Hostname, PortField, ExplicitPort, Assemble, Good, Render, HostOk, IdentityOf,
      BracketsOk, HostPort, Lower;
    if RawFault(raw).None? && Split(raw).Ok? && Split(raw).value.scheme in ["http", "https"]
       && Split(raw).value.netloc != "" && '@' !in Split(raw).value.netloc
    {
      var p := Split(raw).value;
      HostAccepted(alabel, Hostname(p.netloc));
      if ValidatedHost(alabel, Hostname(p.netloc)).Ok? && PortField(p.netloc).Ok? {
        AcceptedLength(alabel, raw, p);
      }
    }
  }

  /** Once the host is good and the port readable, the explicit port and the length decide. */
  lemma AcceptedLength(alabel: string -> bool, raw: string, p: Parsed)
    requires RawFault(raw).None? && Split(raw) == Ok(p) && p.scheme in ["http", "https"] && p.netloc != ""
    requires '@' !in p.netloc && PortField(p.netloc).Ok? && ValidatedHost(alabel, Hostname(p.netloc)).Ok?
    ensures var (host, isIp) := ValidatedHost(alabel, Hostname(p.netloc)).value;
      && host == Lower(Hostname(p.netloc))
      && (ExplicitPort(p.netloc, isIp).Ok? <==>
            PortField(p.netloc).value != Some(0) && p.netloc[|p.netloc| - 1] != ':')
      && (ExplicitPort(p.netloc, isIp).Ok? ==>
            var u := Assemble(p, raw, host, isIp, ExplicitPort(p.netloc, isIp).value);
            && u == Render(IdentityOf(p, raw, host, PortField(p.netloc).value)) && Utf8Length(u) == |u|)
  {
    hide RawFault, Split, ValidatedHost, Hostname, PortField, ExplicitPort, Assemble, Good, Render, HostOk, IdentityOf,
      BracketsOk, HostPort, Lower, Shape, Tail, WellEscaped, NoEscapedControl, UrlChar, EscapesOk;
    var name, tail := SplitInverse(raw);
    var (host, isIp) := ValidatedHost(alabel, Hostname(p.netloc)).value;
    ValidatedIsGood(alabel, Hostname(p.netloc));
    HostChars(alabel, host);
    if !isIp && ':' in HostPort(p.netloc).0 {
      ColonStays(p.netloc);
    }
    PortAccepted(p.netloc, isIp);
    if ExplicitPort(p.netloc, isIp).Ok? {
      var port := ExplicitPort(p.netloc, isIp).value;
      PortsAgree(p.netloc, isIp);
      AssembleIsRender(p, raw, host, isIp, port);
      AcceptedIsGood(alabel, raw, p, host, isIp, port);
      var u := Render(IdentityOf(p, raw, host, port));
      RenderText(alabel, IdentityOf(p, raw, host, port));
      forall c | c in u ensures Ascii(c) { UrlCharIs(c); }
      AsciiLength(u);
    }
  }
}
