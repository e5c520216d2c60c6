/** Host names and address literals. */
module UrlHosts {
  import opened Texts

  //////////////////////////////////////////////////////////////////////////////
  // Address literals
  //////////////////////////////////////////////////////////////////////////////

  predicate Octet(p: string) {
    && 1 <= |p| <= 3 && AllDigits(p)
    && (p[0] != '0' || p == "0")
    && Value(p) <= 255
  }

  predicate Ipv4(h: string) {
    var parts := SplitOn(h, '.');
    |parts| == 4 && forall p :: p in parts ==> Octet(p)
  }

  predicate HexGroup(p: string) { 1 <= |p| <= 4 && forall c :: c in p ==> LowerHex(c) }

  /** The index of the first "::", or the length. */
  function DoubleColon(s: string): (n: nat)
    ensures n <= |s| && (n < |s| ==> n + 1 < |s| && s[n] == ':' && s[n + 1] == ':')
  {
    if |s| < 2 then |s|
    else if s[0] == ':' && s[1] == ':' then 0
    else 1 + DoubleColon(s[1..])
  }

  function PartsOf(s: string): seq<string> {
    if s == "" then [] else SplitOn(s, ':')
  }

  /** The colon-separated part of an IPv6 literal. */
  predicate HexGroups(s: string) {
    var k := DoubleColon(s);
    if k == |s| then |SplitOn(s, ':')| == 8 && forall p :: p in SplitOn(s, ':') ==> HexGroup(p)
    else
      var parts := PartsOf(s[..k]) + PartsOf(s[k + 2..]);
      && DoubleColon(s[k + 2..]) == |s[k + 2..]|
      && |parts| < 8
      && forall p :: p in parts ==> HexGroup(p)
  }

  predicate Ipv6(h: string) {
    if '.' !in h then HexGroups(h)
    else if ':' !in h then false
    else
      AfterLastSplits(h, ':');
      var dotted := AfterLast(h, ':');
      Ipv4(dotted) && HexGroups(h[..|h| - |dotted| - 1] + ":0:0")
  }

  lemma Ipv4Chars(h: string, c: char)
    requires Ipv4(h) && c in h
    ensures Digit(c) || c == '.'
  {
    SplitChars(h, '.', c);
  }

  lemma PartsChars(s: string, c: char)
    requires c in s && forall p :: p in PartsOf(s) ==> HexGroup(p)
    ensures LowerHex(c) || c == ':'
  {
    SplitChars(s, ':', c);
    if c != ':' {
      var p :| p in SplitOn(s, ':') && c in p;
      assert HexGroup(p);
    }
  }

  lemma ColonParts(s: string, k: nat, c: char)
    requires k + 1 < |s| && s[k] == ':' && s[k + 1] == ':' && c in s
    ensures c in s[..k] || c == ':' || c in s[k + 2..]
  {
    var i :| 0 <= i < |s| && s[i] == c;
    if i < k {
      assert s[..k][i] == c;
    } else if i > k + 1 {
      assert s[k + 2..][i - k - 2] == c;
    }
  }

  lemma GroupChars(s: string, c: char)
    requires HexGroups(s) && c in s
    ensures LowerHex(c) || c == ':'
  {
    hide HexGroup, LowerHex;
    var k := DoubleColon(s);
    if k == |s| {
      PartsChars(s, c);
    } else {
      var first, last := s[..k], s[k + 2..];
      ColonParts(s, k, c);
      hide DoubleColon;
      if c in first {
        PartsChars(first, c);
      } else if c in last {
        PartsChars(last, c);
      }
    }
  }

  lemma Ipv6Chars(h: string, c: char)
    requires Ipv6(h)
    ensures ':' in h
    ensures c in h ==> LowerHex(c) || c == ':' || c == '.'
  {
    hide HexGroups, Ipv4;
    if '.' !in h {
      GroupsHaveColon(h);
      if c in h { GroupChars(h, c); }
    } else {
      AfterLastSplits(h, ':');
      var dotted := AfterLast(h, ':');
      var prefix := h[..|h| - |dotted| - 1];
      if c in h {
        if c in prefix {
          assert c in prefix + ":0:0";
          GroupChars(prefix + ":0:0", c);
        } else if c in dotted {
          Ipv4Chars(dotted, c);
        }
      }
    }
  }

  lemma GroupsHaveColon(s: string)
    requires HexGroups(s)
    ensures ':' in s
  {
    hide HexGroup;
    var k := DoubleColon(s);
    if k < |s| { assert s[k] in s; }
  }

  //////////////////////////////////////////////////////////////////////////////
  // Domain names
  //////////////////////////////////////////////////////////////////////////////

  predicate DnsChar(c: char) { LowerLetter(c) || Digit(c) || c == '-' }

  /** A lower-case label. */
  predicate DnsLabel(p: string) {
    1 <= |p| <= 63 && (forall c :: c in p ==> DnsChar(c)) && p[0] != '-' && p[|p| - 1] != '-'
  }

  /** The label pattern of the canonicalizer, which also lets capitals through. */
  predicate HostLabel(p: string) {
    1 <= |p| <= 63 && (forall c :: c in p ==> Alnum(c) || c == '-') && p[0] != '-' && p[|p| - 1] != '-'
  }

  predicate DottedNumeric(h: string) {
    var parts := SplitOn(h, '.');
    |parts| == 4 && forall p :: p in parts ==> p != "" && AllDigits(p)
  }

  predicate Alabels(alabel: string -> bool, h: string) {
    forall p :: p in SplitOn(h, '.') && "xn--" <= p ==> alabel(p)
  }

  predicate DomainOk(alabel: string -> bool, h: string) {
    && |h| <= 253 && !DottedNumeric(h)
    && (forall p :: p in SplitOn(h, '.') ==> DnsLabel(p))
    && Alabels(alabel, h)
  }

  predicate HostOk(alabel: string -> bool, h: string) {
    Ipv4(h) || Ipv6(h) || DomainOk(alabel, h)
  }

  lemma Ipv4Labels(h: string)
    requires Ipv4(h)
    ensures |h| <= 253 && DottedNumeric(h)
    ensures forall p :: p in SplitOn(h, '.') ==> DnsLabel(p) && !("xn--" <= p)
  {
    hide SplitOn, Value;
    ShortParts(h, '.');
    forall p | p in SplitOn(h, '.') ensures DnsLabel(p) && !("xn--" <= p) {
      assert Octet(p);
      assert p[0] in p && p[|p| - 1] in p;
    }
  }

  lemma {:induction false} ShortParts(s: string, c: char)
    requires forall p :: p in SplitOn(s, c) ==> |p| <= 3
    ensures |s| + 1 <= 4 * |SplitOn(s, c)|
  {
    var parts := SplitOn(s, c);
    assert parts[0] in parts;
    if c in s {
      var k := Until(s, {c});
      var rest := SplitOn(s[k + 1..], c);
      assert parts == [s[..k]] + rest;
      ShortParts(s[k + 1..], c);
    } else {
      assert parts == [s];
    }
    hide SplitOn;
  }

  predicate HostChar(c: char) { DnsChar(c) || c == '.' || c == ':' }

  /** A good host is nonempty, lower-case, and has a colon exactly when it is an IPv6 literal. */
  lemma HostChars(alabel: string -> bool, h: string)
    requires HostOk(alabel, h)
    ensures h != "" && (forall c :: c in h ==> HostChar(c)) && Lower(h) == h
    ensures ':' in h <==> Ipv6(h)
  {
    hide Ipv4, Ipv6, DottedNumeric, Alabels, Lower;
    EmptyHost(alabel);
    forall c | c in h ensures HostChar(c) && (c == ':' ==> Ipv6(h)) {
      if Ipv4(h) {
        Ipv4Chars(h, c);
      } else if Ipv6(h) {
        Ipv6Chars(h, c);
      } else {
        SplitChars(h, '.', c);
      }
    }
    if Ipv6(h) { Ipv6Chars(h, ':'); }
    LowerFixed(h);
  }

  lemma EmptyHost(alabel: string -> bool)
    ensures !HostOk(alabel, "")
  {
    assert SplitOn("", '.') == [""] && SplitOn("", ':') == [""];
    assert "" in SplitOn("", '.') && !DnsLabel("");
  }

  /** On a lower-case name the two label patterns agree. */
  lemma LowerLabels(h: string)
    requires Lower(h) == h
    ensures (forall p :: p in SplitOn(h, '.') ==> HostLabel(p)) <==> (forall p :: p in SplitOn(h, '.') ==> DnsLabel(p))
  {
    forall p | p in SplitOn(h, '.') ensures HostLabel(p) <==> DnsLabel(p) {
      forall c | c in p ensures Alnum(c) || c == '-' <==> DnsChar(c) {
        SplitChars(h, '.', c);
        var i :| 0 <= i < |h| && h[i] == c;
        assert LowerChar(h[i]) == h[i];
      }
    }
  }
}
