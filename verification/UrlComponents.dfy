/** Percent escapes: what a component may hold, and how a raw one is encoded. */
module UrlComponents {
  import opened Texts

  /** RFC 3986 pchar without the escapes, and '/'; a query also has '?'. */
  predicate Safe(c: char, query: bool) {
    Alnum(c) || c in "/:@!$&'()*+,;=-._~" || (query && c == '?')
  }

  /** No '%' without two hexadecimal digits. */
  predicate WellEscaped(s: string) {
    forall i :: 0 <= i < |s| && s[i] == '%' ==> i + 2 < |s| && Hex(s[i + 1]) && Hex(s[i + 2])
  }

  function Byte(s: string, i: nat): nat
    requires i + 2 < |s|
  {
    16 * HexValue(s[i + 1]) + HexValue(s[i + 2])
  }

  /** An escaped control: below 0x20, 0x7F, or U+0080 to U+009F in UTF-8. */
  predicate EscapedControl(s: string, i: nat)
    requires i + 2 < |s|
  {
    var b := Byte(s, i);
    b < 0x20 || b == 0x7F || (b == 0xC2 && i + 5 < |s| && s[i + 3] == '%' && 0x80 <= Byte(s, i + 3) <= 0x9F)
  }

  predicate NoEscapedControl(s: string)
    requires WellEscaped(s)
  {
    forall i :: 0 <= i < |s| && s[i] == '%' ==> !EscapedControl(s, i)
  }

  predicate EscapesOk(s: string) {
    forall i :: 0 <= i < |s| && s[i] == '%' ==>
      i + 2 < |s| && UpperHex(s[i + 1]) && UpperHex(s[i + 2]) && !EscapedControl(s, i)
  }

  predicate ComponentOk(s: string, query: bool) {
    EscapesOk(s) && forall c :: c in s ==> c == '%' || Safe(c, query)
  }

  /** _has_encoded_control, the same loop in two of the services. */
  method HasEncodedControl(s: string) returns (found: bool)
    requires WellEscaped(s)
    ensures found <==> !NoEscapedControl(s)
  {
    hide HexValue;
    var index := 0;
    while index + 2 < |s|
      invariant index <= |s|
      invariant forall i :: 0 <= i < index && s[i] == '%' ==> !EscapedControl(s, i)
    {
      if s[index] != '%' {
        index := index + 1;
        continue;
      }
      var decoded := Byte(s, index);
      if decoded < 0x20 || decoded == 0x7F {
        assert EscapedControl(s, index);
        return true;
      }
      if decoded == 0xC2 && index + 5 < |s| && s[index + 3] == '%' && 0x80 <= Byte(s, index + 3) <= 0x9F {
        assert EscapedControl(s, index);
        return true;
      }
      assert !EscapedControl(s, index);
      index := index + 3;
    }
    return false;
  }

  /** _component */
  method CheckComponent(s: string, query: bool) returns (ok: bool)
    ensures ok <==> ComponentOk(s, query)
  {
    var position := 0;
    while position < |s|
      invariant position <= |s| && Checked(s, position, query)
    {
      hide Byte, UpperControl, Checked, Safe, UpperHex, ComponentOk;
      if s[position] == '%' {
        if !(position + 2 < |s| && UpperHex(s[position + 1]) && UpperHex(s[position + 2])) {
          Refused(s, position, query);
          return false;
        }
        if UpperControl(s, position) {
          Refused(s, position, query);
          return false;
        }
        CheckedEscape(s, position, query);
        position := position + 3;
      } else {
        if !Safe(s[position], query) {
          Refused(s, position, query);
          return false;
        }
        CheckedChar(s, position, query);
        position := position + 1;
      }
    }
    AllChecked(s, query);
    return true;
  }

  /** Everything before position has passed. */
  ghost predicate Checked(s: string, position: nat, query: bool)
    requires position <= |s|
  {
    && (forall i :: 0 <= i < position ==> s[i] == '%' || Safe(s[i], query))
    && (forall i :: 0 <= i < position && s[i] == '%' ==> EscapePasses(s, i))
  }

  ghost predicate EscapePasses(s: string, i: nat) {
    i + 2 < |s| && UpperHex(s[i + 1]) && UpperHex(s[i + 2]) && !UpperControl(s, i)
  }

  lemma CheckedEscape(s: string, position: nat, query: bool)
    requires position < |s| && s[position] == '%' && EscapePasses(s, position) && Checked(s, position, query)
    ensures Checked(s, position + 3, query)
  {
    hide UpperHex, Safe, UpperControl;
    UpperHexSafe(s[position + 1], query);
    UpperHexSafe(s[position + 2], query);
    var end := position + 3;
    forall i | 0 <= i < end ensures s[i] == '%' || Safe(s[i], query) {
      assert i < position || i == position || i == position + 1 || i == position + 2;
    }
    forall i | 0 <= i < end && s[i] == '%' ensures EscapePasses(s, i) {
      assert i < position || i == position;
    }
  }

  lemma CheckedChar(s: string, position: nat, query: bool)
    requires position < |s| && s[position] != '%' && Safe(s[position], query) && Checked(s, position, query)
    ensures Checked(s, position + 1, query)
  {
    hide EscapePasses, Safe;
  }

  lemma Refused(s: string, i: nat, query: bool)
    requires i < |s|
    requires if s[i] == '%' then !EscapePasses(s, i) else !Safe(s[i], query)
    ensures !ComponentOk(s, query)
  {
    hide Safe;
    assert s[i] in s;
    if s[i] == '%' && i + 2 < |s| && UpperControl(s, i) {
      assert EscapedControl(s, i);
    }
  }

  lemma AllChecked(s: string, query: bool)
    requires Checked(s, |s|, query)
    ensures ComponentOk(s, query)
  {
    hide Safe;
    forall i | 0 <= i < |s| && s[i] == '%'
      ensures i + 2 < |s| && UpperHex(s[i + 1]) && UpperHex(s[i + 2]) && !EscapedControl(s, i)
    {
      assert EscapePasses(s, i);
      if i + 3 < |s| && s[i + 3] == '%' {
        assert EscapePasses(s, i + 3);
      }
    }
  }

  /** The escape test as _component writes it: after C2 it looks for an upper-case second escape. */
  predicate UpperControl(s: string, i: nat)
    requires i + 2 < |s|
  {
    var b := Byte(s, i);
    b < 0x20 || b == 0x7F || (b == 0xC2 && i + 5 < |s| && s[i + 3] == '%' && s[i + 4] in "89" && UpperHex(s[i + 5]))
  }

  lemma UpperHexSafe(c: char, query: bool)
    requires UpperHex(c)
    ensures Safe(c, query) && c != '%'
  {
  }

  //////////////////////////////////////////////////////////////////////////////
  // Encoding
  //////////////////////////////////////////////////////////////////////////////

  /** Upper-case hexadecimal digits in every escape. */
  function UpperEscapes(s: string): string {
    if s == "" then ""
    else if s[0] == '%' && |s| >= 3 && Hex(s[1]) && Hex(s[2]) then
      ['%', HexUp(s[1]), HexUp(s[2])] + UpperEscapes(s[3..])
    else [s[0]] + UpperEscapes(s[1..])
  }

  function Utf8(c: char): seq<nat> {
    var x := c as int;
    if x < 0x80 then [x]
    else if x < 0x800 then [0xC0 + x / 0x40, 0x80 + x % 0x40]
    else if x < 0x10000 then [0xE0 + x / 0x1000, 0x80 + x / 0x40 % 0x40, 0x80 + x % 0x40]
    else [0xF0 + x / 0x40000, 0x80 + x / 0x1000 % 0x40, 0x80 + x / 0x40 % 0x40, 0x80 + x % 0x40]
  }

  function QuoteByte(b: nat): (s: string)
    requires b < 0x100
    ensures |s| == 3 && s[0] == '%'
  {
    ['%', HexDigit(b / 16), HexDigit(b % 16)]
  }

  predicate AreBytes(bs: seq<nat>) { forall b :: b in bs ==> b < 0x100 }

  function QuoteBytes(bs: seq<nat>): string
    requires AreBytes(bs)
  {
    if bs == [] then "" else
      assert bs[0] in bs && forall b :: b in bs[1..] ==> b in bs;
      QuoteByte(bs[0]) + QuoteBytes(bs[1..])
  }

  function QuoteChar(c: char, query: bool): string {
    if c == '%' || Safe(c, query) then [c]
    else
      Utf8Bytes(c);
      QuoteBytes(Utf8(c))
  }

  lemma Utf8Bytes(c: char)
    ensures AreBytes(Utf8(c))
  {
    var x := c as int;
    assert x < 0x110000;
    assert x / 0x1000 % 0x40 < 0x40 && x / 0x40 % 0x40 < 0x40;
  }

  /** urllib.parse.quote */
  function Quote(s: string, query: bool): string {
    if s == "" then "" else QuoteChar(s[0], query) + Quote(s[1..], query)
  }

  /** _encode_component */
  function Encode(s: string, query: bool): string {
    Quote(UpperEscapes(s), query)
  }

  lemma HexUpKeeps(c: char)
    requires Hex(c)
    ensures UpperHex(HexUp(c)) && HexValue(HexUp(c)) == HexValue(c) && HexUp(c) != '%'
  {
  }

  /** Encoding goes escape by escape and character by character. */
  lemma EncodeStep(s: string, query: bool)
    requires s != ""
    ensures s[0] == '%' && |s| >= 3 && Hex(s[1]) && Hex(s[2]) ==>
              Encode(s, query) == ['%', HexUp(s[1]), HexUp(s[2])] + Encode(s[3..], query)
    ensures s[0] != '%' ==> Encode(s, query) == QuoteChar(s[0], query) + Encode(s[1..], query)
  {
    hide QuoteChar, HexUp, HexValue, UpperHex, Safe, Hex;
    if s[0] == '%' && |s| >= 3 && Hex(s[1]) && Hex(s[2]) {
      HexUpKeeps(s[1]);
      HexUpKeeps(s[2]);
      QuoteThree('%', HexUp(s[1]), HexUp(s[2]), UpperEscapes(s[3..]), query);
    } else if s[0] != '%' {
      assert ([s[0]] + UpperEscapes(s[1..]))[1..] == UpperEscapes(s[1..]);
    }
  }

  lemma QuoteKeeps(c: char, rest: string, query: bool)
    requires c == '%' || Safe(c, query)
    ensures Quote([c] + rest, query) == [c] + Quote(rest, query)
  {
    hide Safe, QuoteBytes, Utf8;
    assert ([c] + rest)[1..] == rest;
  }

  lemma ThreeInFront(a: char, b: char, c: char, rest: string)
    ensures [a] + ([b] + ([c] + rest)) == [a, b, c] + rest
  {
  }

  lemma QuoteThree(a: char, b: char, c: char, rest: string, query: bool)
    requires a == '%' && UpperHex(b) && UpperHex(c)
    ensures Quote([a, b, c] + rest, query) == [a, b, c] + Quote(rest, query)
  {
    UpperHexSafe(b, query);
    UpperHexSafe(c, query);
    hide *;
    var s2 := [c] + rest;
    var s1 := [b] + s2;
    QuoteKeeps(c, rest, query);
    QuoteKeeps(b, s2, query);
    QuoteKeeps(a, s1, query);
    ThreeInFront(a, b, c, rest);
    ThreeInFront(a, b, c, Quote(rest, query));
  }

  /** Two good pieces join unless C2 meets a byte from 80 to 9F. */
  lemma JoinEscapes(a: string, b: string)
    requires EscapesOk(a) && EscapesOk(b)
    requires |a| >= 3 && a[|a| - 3] == '%' && Byte(a, |a| - 3) == 0xC2 && b != "" && b[0] == '%' ==>
               !(0x80 <= Byte(b, 0) <= 0x9F)
    ensures EscapesOk(a + b)
  {
    hide HexValue, UpperHex;
    var s := a + b;
    forall i | 0 <= i < |s| && s[i] == '%'
      ensures i + 2 < |s| && UpperHex(s[i + 1]) && UpperHex(s[i + 2]) && !EscapedControl(s, i)
    {
      if i < |a| {
        JoinLeft(a, b, i);
      } else {
        assert b[i - |a|] == '%' && !EscapedControl(b, i - |a|);
      }
    }
  }

  lemma JoinLeft(a: string, b: string, i: nat)
    requires EscapesOk(a) && EscapesOk(b)
    requires |a| >= 3 && a[|a| - 3] == '%' && Byte(a, |a| - 3) == 0xC2 && b != "" && b[0] == '%' ==>
               !(0x80 <= Byte(b, 0) <= 0x9F)
    requires i < |a| && a[i] == '%'
    ensures i + 2 < |a| && UpperHex(a[i + 1]) && UpperHex(a[i + 2]) && !EscapedControl(a + b, i)
  {
    hide HexValue, UpperHex;
    var s := a + b;
    assert !EscapedControl(a, i) && Byte(s, i) == Byte(a, i);
    if i + 3 < |a| {
      if a[i + 3] == '%' {
        assert i + 5 < |a| && Byte(s, i + 3) == Byte(a, i + 3);
      }
    } else if b != "" && b[0] == '%' {
      assert 2 < |b| && Byte(s, i + 3) == Byte(b, 0);
    }
  }

  lemma QuoteByteIs(b: nat)
    requires b < 0x100
    ensures var s := QuoteByte(b); UpperHex(s[1]) && UpperHex(s[2]) && Byte(s, 0) == b
  {
    HexDigitIs(b / 16);
    HexDigitIs(b % 16);
    hide HexDigit, HexValue;
  }

  lemma HexDigitIs(n: nat)
    requires n < 16
    ensures UpperHex(HexDigit(n)) && HexValue(HexDigit(n)) == n && HexDigit(n) != '%'
  {
  }

  /** Bytes that are no controls on their own or together. */
  predicate Printable(bs: seq<nat>) {
    && (forall b :: b in bs ==> 0x20 <= b < 0x100 && b != 0x7F)
    && (forall i :: 0 <= i && i + 1 < |bs| && bs[i] == 0xC2 ==> !(0x80 <= bs[i + 1] <= 0x9F))
  }

  lemma {:induction false} QuoteBytesOk(bs: seq<nat>, query: bool)
    requires Printable(bs) && bs != []
    ensures var s := QuoteBytes(bs);
      && ComponentOk(s, query) && |s| >= 3 && s[0] == '%' && Byte(s, 0) == bs[0]
      && s[|s| - 3] == '%' && Byte(s, |s| - 3) == bs[|bs| - 1]
  {
    hide HexValue, UpperHex, Safe, QuoteByte;
    assert bs[0] in bs;
    var first, rest := QuoteByte(bs[0]), bs[1..];
    QuoteByteOk(bs[0], query);
    assert forall b :: b in rest ==> b in bs;
    if rest == [] {
      assert QuoteBytes(rest) == "" && first + "" == first;
    } else {
      QuoteBytesOk(rest, query);
      var q := QuoteBytes(rest);
      JoinEscapes(first, q);
      var s := first + q;
      assert Byte(s, 0) == Byte(first, 0) && Byte(s, |s| - 3) == Byte(q, |q| - 3);
    }
  }

  lemma QuoteByteOk(b: nat, query: bool)
    requires 0x20 <= b < 0x100 && b != 0x7F
    ensures ComponentOk(QuoteByte(b), query) && Byte(QuoteByte(b), 0) == b
  {
    QuoteByteIs(b);
    var s := QuoteByte(b);
    UpperHexSafe(s[1], query);
    UpperHexSafe(s[2], query);
    hide UpperHex, Safe, HexValue, QuoteByte;
  }

  lemma Utf8Printable(c: char)
    requires !Control(c)
    ensures var bs := Utf8(c);
      Printable(bs) && bs != [] && !(0x80 <= bs[0] <= 0x9F) && bs[|bs| - 1] != 0xC2
  {
    var x := c as int;
    Utf8Bytes(c);
  }

  /** The first escape of an encoded text is one of the raw text, or begins an encoded character. */
  lemma FirstEscape(s: string, query: bool)
    requires WellEscaped(s) && (forall c :: c in s ==> !Control(c))
    ensures var e := Encode(s, query);
      e != "" && e[0] == '%' ==>
        && s != "" && |e| >= 3
        && (0x80 <= Byte(e, 0) <= 0x9F ==> s[0] == '%' && Byte(s, 0) == Byte(e, 0))
  {
    hide HexValue, UpperHex, Safe, HexUp, Utf8, QuoteBytes;
    if s != "" {
      EncodeStep(s, query);
      var e := Encode(s, query);
      if s[0] == '%' {
        HexUpKeeps(s[1]);
        HexUpKeeps(s[2]);
      } else if !Safe(s[0], query) {
        assert s[0] in s;
        Utf8Printable(s[0]);
        QuoteBytesOk(Utf8(s[0]), query);
        assert Byte(e, 0) == Byte(QuoteBytes(Utf8(s[0])), 0);
      }
    } else {
      assert UpperEscapes(s) == "";
    }
  }

  /** Encoding a raw component that holds no controls gives a canonical one. */
  lemma {:induction false} EncodeOk(s: string, query: bool)
    requires WellEscaped(s) && NoEscapedControl(s) && (forall c :: c in s ==> !Control(c))
    ensures ComponentOk(Encode(s, query), query)
    decreases |s|
  {
    hide HexValue, UpperHex, Safe, HexUp, Utf8, QuoteBytes, Encode;
    if s == "" {
      EncodeEmpty(query);
    } else {
      EncodeStep(s, query);
      var n := if s[0] == '%' then 3 else 1;
      var rest := s[n..];
      RestEscapes(s, n);
      EncodeOk(rest, query);
      FirstEscape(rest, query);
      if s[0] == '%' {
        EscapePiece(s, query);
        JoinEscapes(['%', HexUp(s[1]), HexUp(s[2])], Encode(rest, query));
      } else {
        assert s[0] in s;
        CharPiece(s[0], query);
        JoinEscapes(QuoteChar(s[0], query), Encode(rest, query));
      }
    }
  }

  lemma EncodeEmpty(query: bool)
    ensures Encode("", query) == "" && ComponentOk("", query)
  {
    assert UpperEscapes("") == "";
  }

  lemma RestEscapes(s: string, n: nat)
    requires WellEscaped(s) && NoEscapedControl(s) && n <= |s|
    ensures WellEscaped(s[n..]) && NoEscapedControl(s[n..])
    ensures forall c :: c in s[n..] ==> c in s
  {
    hide HexValue, Hex;
    var r := s[n..];
    forall i | 0 <= i < |r| && r[i] == '%'
      ensures i + 2 < |r| && Hex(r[i + 1]) && Hex(r[i + 2]) && !EscapedControl(r, i)
    {
      assert s[n + i] == '%' && !EscapedControl(s, n + i);
    }
  }

  lemma SingleEscape(p: string, query: bool)
    requires |p| == 3 && p[0] == '%' && UpperHex(p[1]) && UpperHex(p[2]) && Byte(p, 0) >= 0x20 && Byte(p, 0) != 0x7F
    ensures ComponentOk(p, query)
  {
    hide HexValue, Byte, Safe, UpperHex;
    UpperHexSafe(p[1], query);
    UpperHexSafe(p[2], query);
    forall c | c in p ensures c == '%' || Safe(c, query) {
      assert c == p[0] || c == p[1] || c == p[2];
    }
  }

  /** An escape on its own, and the byte that it may not meet. */
  lemma EscapePiece(s: string, query: bool)
    requires s != "" && s[0] == '%' && WellEscaped(s) && NoEscapedControl(s)
    ensures var p := ['%', HexUp(s[1]), HexUp(s[2])];
      && ComponentOk(p, query) && Byte(p, 0) == Byte(s, 0)
      && (Byte(p, 0) == 0xC2 && |s| > 3 && s[3] == '%' ==> !(0x80 <= Byte(s[3..], 0) <= 0x9F))
  {
    hide HexValue, UpperHex, Safe, HexUp, Hex, ComponentOk;
    HexUpKeeps(s[1]);
    HexUpKeeps(s[2]);
    assert !EscapedControl(s, 0);
    SingleEscape(['%', HexUp(s[1]), HexUp(s[2])], query);
    if |s| > 3 && s[3] == '%' {
      assert Byte(s[3..], 0) == Byte(s, 3);
    }
  }

  lemma CharPiece(c: char, query: bool)
    requires c != '%' && !Control(c)
    ensures var p := QuoteChar(c, query);
      ComponentOk(p, query) && (|p| >= 3 && p[|p| - 3] == '%' ==> Byte(p, |p| - 3) != 0xC2)
  {
    hide Utf8, QuoteBytes, HexValue;
    if !Safe(c, query) {
      Utf8Printable(c);
      QuoteBytesOk(Utf8(c), query);
    }
  }

  //////////////////////////////////////////////////////////////////////////////
  // A canonical component encodes to itself
  //////////////////////////////////////////////////////////////////////////////

  lemma {:induction false} UpperFixed(s: string)
    requires EscapesOk(s)
    ensures UpperEscapes(s) == s
    decreases |s|
  {
    hide HexValue, EscapedControl;
    if s != "" {
      var n := if s[0] == '%' then 3 else 1;
      RestOk(s, n);
      UpperFixed(s[n..]);
      assert s == s[..n] + s[n..];
      hide EscapesOk;
    }
  }

  lemma RestOk(s: string, n: nat)
    requires n <= |s| && EscapesOk(s)
    ensures EscapesOk(s[n..])
  {
    hide HexValue, UpperHex;
    var r := s[n..];
    forall i | 0 <= i < |r| && r[i] == '%'
      ensures i + 2 < |r| && UpperHex(r[i + 1]) && UpperHex(r[i + 2]) && !EscapedControl(r, i)
    {
      assert s[n + i] == '%' && !EscapedControl(s, n + i);
    }
  }

  lemma {:induction false} QuoteFixed(s: string, query: bool)
    requires forall c :: c in s ==> c == '%' || Safe(c, query)
    ensures Quote(s, query) == s
  {
    hide Safe;
    if s != "" {
      assert s[0] in s;
      QuoteFixed(s[1..], query);
      assert s == [s[0]] + s[1..];
    }
  }

  lemma EncodeFixed(s: string, query: bool)
    requires ComponentOk(s, query)
    ensures Encode(s, query) == s
  {
    UpperFixed(s);
    QuoteFixed(s, query);
  }

  /** A slice that ends where no hexadecimal digit follows keeps its escapes whole. */
  lemma SliceEscapes(u: string, a: nat, b: nat)
    requires a <= b <= |u| && WellEscaped(u) && NoEscapedControl(u)
    requires b < |u| ==> !Hex(u[b])
    ensures WellEscaped(u[a..b]) && NoEscapedControl(u[a..b])
  {
    hide Hex, HexValue;
    var s := u[a..b];
    forall i | 0 <= i < |s| && s[i] == '%'
      ensures i + 2 < |s| && Hex(s[i + 1]) && Hex(s[i + 2]) && !EscapedControl(s, i)
    {
      assert u[a + i] == '%' && !EscapedControl(u, a + i);
      assert a + i + 1 != b && a + i + 2 != b;
    }
  }
}
