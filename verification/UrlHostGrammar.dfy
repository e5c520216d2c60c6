/** The texts that the host tests accept, generated from their parts: section 3.2.2 of RFC 3986 for IPv4, section 2.2 of
    RFC 4291 for IPv6 and section 2.3.1 of RFC 1035 for names. */
module UrlHostGrammar {
  import opened Texts
  import opened UrlHosts

  //////////////////////////////////////////////////////////////////////////////
  // IPv4
  //////////////////////////////////////////////////////////////////////////////

  /** The text of four bytes. */
  function Dotted(a: nat, b: nat, c: nat, d: nat): string {
    Decimal(a) + "." + Decimal(b) + "." + Decimal(c) + "." + Decimal(d)
  }

  lemma OctetIs(p: string, n: nat)
    requires n < 256
    ensures p == Decimal(n) ==> Octet(p) && Value(p) == n
    ensures Octet(p) && Value(p) == n ==> p == Decimal(n)
  {
    hide Decimal, Value;
    CanonicalDecimalIs(p, n);
    if p == Decimal(n) { ByteShort(n); }
  }

  lemma ByteShort(n: nat)
    requires n < 256
    ensures 1 <= |Decimal(n)| <= 3
  {
    assert n / 10 < 26 && n / 10 / 10 < 3;
    assert n >= 100 ==> |Decimal(n / 10 / 10)| == 1;
    assert n >= 10 ==> |Decimal(n / 10)| <= 2;
  }

  lemma DottedParts(a: nat, b: nat, c: nat, d: nat)
    ensures SplitOn(Dotted(a, b, c, d), '.') == [Decimal(a), Decimal(b), Decimal(c), Decimal(d)]
  {
    hide Decimal, SplitOn;
    SplitFour(Decimal(a), Decimal(b), Decimal(c), Decimal(d), '.');
  }

  lemma PartsDotted(h: string, a: nat, b: nat, c: nat, d: nat)
    requires SplitOn(h, '.') == [Decimal(a), Decimal(b), Decimal(c), Decimal(d)]
    ensures h == Dotted(a, b, c, d)
  {
    hide Decimal, SplitOn, Joined;
    JoinSplit(h, '.');
    JoinFour(Decimal(a), Decimal(b), Decimal(c), Decimal(d), '.');
  }

  /** The accepted IPv4 literals are the texts of the 32-bit addresses, one text for each. */
  lemma Ipv4Exactly(h: string)
    ensures Ipv4(h) <==> exists a, b, c, d | a < 256 && b < 256 && c < 256 && d < 256 :: h == Dotted(a, b, c, d)
  {
    hide Octet, Decimal, Dotted;
    if Ipv4(h) {
      var p := SplitOn(h, '.');
      assert p[0] in p && p[1] in p && p[2] in p && p[3] in p && p == [p[0], p[1], p[2], p[3]];
      var a := OctetValue(p[0]);
      var b := OctetValue(p[1]);
      var c := OctetValue(p[2]);
      var d := OctetValue(p[3]);
      PartsDotted(h, a, b, c, d);
    }
    if a, b, c, d :| a < 256 && b < 256 && c < 256 && d < 256 && h == Dotted(a, b, c, d) {
      DottedParts(a, b, c, d);
      OctetIs(Decimal(a), a);
      OctetIs(Decimal(b), b);
      OctetIs(Decimal(c), c);
      OctetIs(Decimal(d), d);
    }
  }

  lemma OctetValue(p: string) returns (n: nat)
    requires Octet(p)
    ensures n < 256 && p == Decimal(n)
  {
    n := Value(p);
    OctetIs(p, n);
  }

  //////////////////////////////////////////////////////////////////////////////
  // IPv6
  //////////////////////////////////////////////////////////////////////////////

  /** The text of some 16-bit groups, each of one to four lower-case hexadecimal digits. */
  ghost predicate Groups(s: string, parts: seq<string>) {
    && (forall p :: p in parts ==> 1 <= |p| <= 4 && forall c :: c in p ==> '0' <= c <= '9' || 'a' <= c <= 'f')
    && s == if parts == [] then "" else Joined(parts, ':')
  }

  lemma GroupsSplit(s: string, parts: seq<string>)
    requires Groups(s, parts)
    ensures PartsOf(s) == parts && (parts != [] ==> SplitOn(s, ':') == parts) && forall p :: p in parts ==> HexGroup(p)
    ensures s == "" <==> parts == []
  {
    hide Joined, SplitOn;
    if parts != [] {
      SplitJoin(parts, ':');
      GroupFirst(s, parts);
    }
  }

  lemma SplitGroups(s: string, parts: seq<string>)
    requires parts == PartsOf(s) && forall p :: p in parts ==> HexGroup(p)
    ensures Groups(s, parts)
  {
    if s != "" { JoinSplit(s, ':'); }
  }

  /** The first double colon is behind the groups in front of it. */
  lemma {:induction false} DoubleColonAt(a: string, parts: seq<string>, rest: string)
    requires Groups(a, parts) && (rest == "" || "::" <= rest)
    ensures DoubleColon(a + rest) == |a|
    decreases |parts|
  {
    hide DoubleColon, Joined;
    if parts == [] {
      assert a + rest == rest;
      AtDouble(rest);
    } else {
      var p, tail := parts[0], parts[1..];
      assert p in parts && parts == [p] + tail;
      JoinStep(p, tail, ':');
      AtDouble(rest);
      if tail == [] {
        PlainFront(p, rest);
      } else {
        var b := Joined(tail, ':');
        GroupFirst(b, tail);
        DoubleColonAt(b, tail, rest);
        assert a + rest == p + ([':'] + (b + rest));
        PlainFront(p, [':'] + (b + rest));
        SingleColon(b + rest);
      }
    }
  }

  lemma AtDouble(rest: string)
    requires rest == "" || "::" <= rest
    ensures DoubleColon(rest) == 0
  {
    if rest != "" { assert rest[0] == "::"[0] && rest[1] == "::"[1]; }
  }

  lemma SingleColon(s: string)
    requires s != "" && s[0] != ':'
    ensures DoubleColon([':'] + s) == 1 + DoubleColon(s)
  {
    assert ([':'] + s)[1] == s[0] && ([':'] + s)[1..] == s;
  }

  lemma GroupFirst(s: string, parts: seq<string>)
    requires parts != [] && s == Joined(parts, ':')
    requires forall p :: p in parts ==> 1 <= |p| <= 4 && forall c :: c in p ==> '0' <= c <= '9' || 'a' <= c <= 'f'
    ensures s != "" && s[0] != ':'
  {
    assert parts[0] in parts && parts[0][0] in parts[0];
    assert s[0] == parts[0][0];
  }

  lemma {:induction false} PlainFront(p: string, rest: string)
    requires ':' !in p
    ensures DoubleColon(p + rest) == |p| + DoubleColon(rest)
  {
    hide DoubleColon;
    if p == "" {
      assert p + rest == rest;
    } else {
      var s := p + rest;
      assert p[0] in p && s[0] == p[0] && s[1..] == p[1..] + rest;
      PlainFront(p[1..], rest);
      PlainStep(s);
    }
  }

  lemma PlainStep(s: string)
    requires s != "" && s[0] != ':'
    ensures DoubleColon(s) == 1 + DoubleColon(s[1..])
  {
  }

  /** Eight groups. */
  ghost predicate LongForm(h: string) { exists parts :: |parts| == 8 && Groups(h, parts) }

  /** At most seven groups, with one double colon among them. */
  ghost predicate ShortForm(h: string) {
    exists a, b, left, right :: |left| + |right| <= 7 && Groups(a, left) && Groups(b, right) && h == a + "::" + b
  }

  lemma HexGroupsForm(h: string)
    requires HexGroups(h)
    ensures LongForm(h) || ShortForm(h)
  {
    hide Groups, HexGroup, SplitOn, DoubleColon, PartsOf;
    var k := DoubleColon(h);
    if k == |h| {
      ManyParts(h);
      SplitGroups(h, SplitOn(h, ':'));
    } else {
      var a, b := h[..k], h[k + 2..];
      var left, right := PartsOf(a), PartsOf(b);
      SplitGroups(a, left);
      SplitGroups(b, right);
      assert h == a + "::" + b && |left| + |right| <= 7;
    }
  }

  lemma ManyParts(h: string)
    requires |SplitOn(h, ':')| > 1
    ensures PartsOf(h) == SplitOn(h, ':')
  {
  }

  lemma LongFormPasses(h: string, parts: seq<string>)
    requires |parts| == 8 && Groups(h, parts)
    ensures HexGroups(h)
  {
    hide Groups, HexGroup, SplitOn, DoubleColon, PartsOf;
    GroupsSplit(h, parts);
    DoubleColonAt(h, parts, "");
    assert h + "" == h;
  }

  lemma ShortFormPasses(a: string, b: string, left: seq<string>, right: seq<string>)
    requires |left| + |right| <= 7 && Groups(a, left) && Groups(b, right)
    ensures HexGroups(a + "::" + b)
  {
    hide Groups, HexGroup, SplitOn, DoubleColon, PartsOf;
    var h := a + "::" + b;
    GroupsSplit(a, left);
    GroupsSplit(b, right);
    assert h == a + ("::" + b);
    DoubleColonAt(a, left, "::" + b);
    DoubleColonAt(b, right, "");
    assert b + "" == b && h[..|a|] == a && h[|a| + 2..] == b;
  }

  /** The colon forms. */
  lemma HexGroupsExactly(h: string)
    ensures HexGroups(h) <==> LongForm(h) || ShortForm(h)
  {
    hide Groups, HexGroups;
    if HexGroups(h) { HexGroupsForm(h); }
    if LongForm(h) {
      var parts :| |parts| == 8 && Groups(h, parts);
      LongFormPasses(h, parts);
    }
    if ShortForm(h) {
      var a, b, left, right :|
        |left| + |right| <= 7 && Groups(a, left) && Groups(b, right) && h == a + "::" + b;
      ShortFormPasses(a, b, left, right);
    }
  }

  /** The last two groups are written as an IPv4 literal. */
  ghost predicate DottedForm(h: string) {
    exists head, quad :: Ipv4(quad) && h == head + ":" + quad && HexGroups(head + ":0:0")
  }

  /** The accepted IPv6 literals: the colon forms, and those with dots. */
  lemma Ipv6Exactly(h: string)
    ensures Ipv6(h) <==> ('.' !in h && (LongForm(h) || ShortForm(h))) || DottedForm(h)
  {
    hide HexGroups, Ipv4, LongForm, ShortForm, DottedForm;
    HexGroupsExactly(h);
    if '.' in h && Ipv6(h) { DottedIpv6(h); }
    if DottedForm(h) { DottedPasses(h); }
  }

  lemma DottedIpv6(h: string)
    requires '.' in h && Ipv6(h)
    ensures DottedForm(h)
  {
    hide HexGroups, Ipv4, AfterLast;
    AfterLastSplits(h, ':');
    var quad := AfterLast(h, ':');
    var head := h[..|h| - |quad| - 1];
    assert h == head + ":" + quad;
  }

  lemma DottedPasses(h: string)
    requires DottedForm(h)
    ensures '.' in h && Ipv6(h)
  {
    hide HexGroups, Ipv4, AfterLast;
    var head, quad :| Ipv4(quad) && h == head + ":" + quad && HexGroups(head + ":0:0");
    if ':' in quad { Ipv4Chars(quad, ':'); }
    LastColon(head, quad);
    Ipv4Dot(quad);
    assert h[|head|] == ':' && h[..|h| - |quad| - 1] == head;
  }

  lemma Ipv4Dot(h: string)
    requires Ipv4(h)
    ensures '.' in h
  {
  }

  lemma {:induction false} LastColon(head: string, quad: string)
    requires ':' !in quad
    ensures AfterLast(head + ":" + quad, ':') == quad
  {
    var s := head + ":" + quad;
    if quad == "" {
      assert s[|s| - 1] == ':';
    } else {
      assert quad[|quad| - 1] in quad && s[..|s| - 1] == head + ":" + quad[..|quad| - 1];
      LastColon(head, quad[..|quad| - 1]);
    }
  }

  //////////////////////////////////////////////////////////////////////////////
  // Names
  //////////////////////////////////////////////////////////////////////////////

  /** A label: one to 63 lower-case letters, digits and inner hyphens. */
  predicate NameLabel(p: string) {
    && 1 <= |p| <= 63 && p[0] != '-' && p[|p| - 1] != '-'
    && forall c :: c in p ==> 'a' <= c <= 'z' || '0' <= c <= '9' || c == '-'
  }

  /** The accepted names: labels joined by dots, at most 253 characters, not four numbers, and every label that is
      marked as one is an A-label. */
  lemma DomainExactly(alabel: string -> bool, h: string)
    ensures DomainOk(alabel, h) <==>
      exists parts ::
        && parts != [] && (forall p :: p in parts ==> NameLabel(p)) && h == Joined(parts, '.') && |h| <= 253
        && (|parts| == 4 ==> exists p, c :: p in parts && c in p && !('0' <= c <= '9'))
        && forall p :: p in parts && "xn--" <= p ==> alabel(p)
  {
    hide Joined, SplitOn;
    if DomainOk(alabel, h) {
      var parts := SplitOn(h, '.');
      JoinSplit(h, '.');
      forall p | p in parts ensures NameLabel(p) { assert DnsLabel(p); }
    }
    if parts :| parts != [] && (forall p :: p in parts ==> NameLabel(p)) && h == Joined(parts, '.') && |h| <= 253
                && (|parts| == 4 ==> exists p, c :: p in parts && c in p && !('0' <= c <= '9'))
                && forall p :: p in parts && "xn--" <= p ==> alabel(p)
    {
      forall p | p in parts ensures '.' !in p && DnsLabel(p) { assert NameLabel(p); }
      SplitJoin(parts, '.');
    }
  }
}
