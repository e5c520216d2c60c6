/** The one character beyond ASCII that the canonicalizer lets through in a host: the Kelvin sign. */
module UrlFolding {
  import opened Outcomes
  import opened Texts
  import opened UrlHosts
  import opened UrlComponents
  import opened UrlParse
  import opened UrlCanonical

  const KELVIN: char := '\U{212A}'

  //////////////////////////////////////////////////////////////////////////////
  // Which code a host beyond ASCII gets
  //////////////////////////////////////////////////////////////////////////////

  /** The checks before the host check pass. */
  predicate ReachesHost(raw: string) {
    && RawFault(raw).None? && Split(raw).Ok?
    && (var p := Split(raw).value; p.scheme in ["http", "https"] && p.netloc != "" && '@' !in p.netloc)
  }

  function RawHost(raw: string): string
    requires ReachesHost(raw)
  {
    HostPort(Split(raw).value.netloc).0
  }

  /** A character beyond ASCII that case folding leaves beyond ASCII; after a '%' nothing is folded. */
  predicate StaysBeyond(host: string, i: nat)
    requires i < |host|
  {
    !Ascii(host[i]) && (host[i] != KELVIN || i >= Until(host, {'%'}))
  }

  predicate BeyondAscii(host: string) {
    exists i :: 0 <= i < |host| && StaysBeyond(host, i)
  }

  lemma LowerBeyond(c: char)
    ensures Ascii(LowerChar(c)) <==> Ascii(c) || c == KELVIN
  {
  }

  /** What the host check sees beyond ASCII. */
  lemma HostnameBeyond(netloc: string)
    ensures var host, name := HostPort(netloc).0, Hostname(netloc);
      (exists c :: c in name && !Ascii(c)) <==> BeyondAscii(host)
  {
    hide HostPort, LowerChar;
    var host := HostPort(netloc).0;
    var n := Until(host, {'%'});
    var name := Lower(host[..n]) + host[n..];
    forall i | 0 <= i < |host| ensures StaysBeyond(host, i) <==> !Ascii(name[i]) {
      LowerBeyond(host[i]);
    }
    if c :| c in name && !Ascii(c) {
      var i :| 0 <= i < |name| && name[i] == c;
      assert StaysBeyond(host, i);
    }
    if i :| 0 <= i < |host| && StaysBeyond(host, i) {
      assert name[i] in name;
    }
  }

  /** Once the checks before it pass, the rejection is that of a host beyond ASCII exactly when some character
      of the host as written stays beyond ASCII when it is folded. */
  lemma NonAsciiExactly(alabel: string -> bool, raw: string)
    requires ReachesHost(raw)
    ensures Canonicalize(alabel, raw) == Err("non_ascii_host_v1") <==> BeyondAscii(RawHost(raw))
  {
    hide RawFault, Split, PortField, Assemble, Hostname, HostPort, Ipv4, Ipv6, LabelsOk, DottedNumeric, BeyondAscii;
    var p := Split(raw).value;
    HostnameBeyond(p.netloc);
    HostCode(alabel, Hostname(p.netloc));
    PortCode(p.netloc);
  }

  lemma HostCode(alabel: string -> bool, host: string)
    ensures ValidatedHost(alabel, host) == Err("non_ascii_host_v1") <==> exists c :: c in host && !Ascii(c)
  {
    hide Ipv4, Ipv6, LabelsOk, DottedNumeric, Lower;
  }

  lemma PortCode(netloc: string)
    ensures forall isIp :: ExplicitPort(netloc, isIp) != Err("non_ascii_host_v1")
  {
    hide Until, AfterLast, Value;
  }

  /** Every character of an accepted host, as written, is ASCII or the Kelvin sign. */
  lemma AcceptedHost(alabel: string -> bool, raw: string)
    requires Canonicalize(alabel, raw).Ok?
    ensures ReachesHost(raw) && forall c :: c in RawHost(raw) ==> Ascii(c) || c == KELVIN
  {
    hide RawFault, Split, PortField, Assemble, Hostname, HostPort, ValidatedHost, ExplicitPort, Until;
    NonAsciiExactly(alabel, raw);
    var host := RawHost(raw);
    forall c | c in host ensures Ascii(c) || c == KELVIN {
      var i :| 0 <= i < |host| && host[i] == c;
      assert !StaysBeyond(host, i);
    }
  }

  //////////////////////////////////////////////////////////////////////////////
  // Writing k for the Kelvin sign
  //////////////////////////////////////////////////////////////////////////////

  function FoldChar(c: char): char { if c == KELVIN then 'k' else c }

  function FoldText(s: string): (r: string)
    ensures |r| == |s| && forall i :: 0 <= i < |s| ==> r[i] == FoldChar(s[i])
  {
    seq(|s|, i requires 0 <= i < |s| => FoldChar(s[i]))
  }

  /** r is s with some Kelvin signs written as k. */
  ghost predicate Folds(s: string, r: string) {
    |r| == |s| && forall i :: 0 <= i < |s| ==> r[i] == s[i] || (s[i] == KELVIN && r[i] == 'k')
  }

  lemma FoldMember(s: string, r: string, c: char)
    requires Folds(s, r) && c != KELVIN && c != 'k'
    ensures c in s <==> c in r
  {
    if c in s { var i :| 0 <= i < |s| && s[i] == c; assert r[i] in r; }
    if c in r { var i :| 0 <= i < |r| && r[i] == c; assert s[i] in s; }
  }

  lemma FoldUntil(s: string, r: string, stops: set<char>)
    requires Folds(s, r) && KELVIN !in stops && 'k' !in stops
    ensures Until(r, stops) == Until(s, stops)
  {
    hide Until;
    UntilIs(r, stops, Until(s, stops));
  }

  lemma FoldCut(s: string, r: string, c: char)
    requires Folds(s, r) && c != KELVIN && c != 'k'
    ensures Folds(Cut(s, c).0, Cut(r, c).0) && Folds(Cut(s, c).1, Cut(r, c).1)
  {
    hide Until;
    FoldUntil(s, r, {c});
  }

  lemma FoldLower(s: string, r: string)
    requires Folds(s, r)
    ensures Lower(s) == Lower(r)
  {
  }

  lemma FoldNonDigits(s: string, r: string)
    requires Folds(s, r)
    ensures s == r || (!AllDigits(s) && !AllDigits(r))
  {
    if i :| 0 <= i < |s| && s[i] != r[i] {
      assert s[i] in s && r[i] in r;
    }
  }

  lemma FoldLiteral(s: string, r: string)
    requires Folds(s, r)
    ensures LiteralOk(s) <==> LiteralOk(r)
  {
    hide Ipv6, Until, Lower;
    FoldLower(s, r);
    FoldMember(s, r, '%');
    FoldUntil(s, r, {'.'});
    FutureFolds(s, r);
    hide IpFuture;
  }

  lemma FutureFolds(s: string, r: string)
    requires Folds(s, r)
    ensures IpFuture(s) <==> IpFuture(r)
  {
    hide Until;
    FoldUntil(s, r, {'.'});
    var n := Until(s, {'.'});
    if 1 <= n {
      HexFolds(s[1..n], r[1..n]);
    }
    hide Hex;
  }

  lemma HexFolds(s: string, r: string)
    requires Folds(s, r)
    ensures (forall c :: c in s ==> Hex(c)) <==> (forall c :: c in r ==> Hex(c))
  {
    forall i | 0 <= i < |s| ensures Hex(s[i]) <==> Hex(r[i]) { }
    if forall c :: c in s ==> Hex(c) {
      forall c | c in r ensures Hex(c) { var i :| 0 <= i < |r| && r[i] == c; assert s[i] in s; }
    }
    if forall c :: c in r ==> Hex(c) {
      forall c | c in s ensures Hex(c) { var i :| 0 <= i < |s| && s[i] == c; assert r[i] in r; }
    }
  }

  lemma AfterLastStep(s: string, c: char)
    requires s != "" && s[|s| - 1] != c
    ensures AfterLast(s, c) == AfterLast(s[..|s| - 1], c) + [s[|s| - 1]]
  {
  }

  lemma {:induction false} FoldAfterLast(s: string, r: string, c: char)
    requires Folds(s, r) && c != KELVIN && c != 'k'
    ensures Folds(AfterLast(s, c), AfterLast(r, c))
    decreases |s|
  {
    if s != "" && s[|s| - 1] != c {
      var front, rest := s[..|s| - 1], r[..|r| - 1];
      FoldAfterLast(front, rest, c);
      AfterLastStep(s, c);
      AfterLastStep(r, c);
      hide AfterLast;
    }
  }

  /** Folding an authority folds its host and its port text. */
  lemma FoldNetloc(s: string, r: string)
    requires Folds(s, r) && '@' !in s
    ensures '@' !in r && (BracketsOk(s) <==> BracketsOk(r))
    ensures Folds(HostPort(s).0, HostPort(r).0) && Folds(HostPort(s).1, HostPort(r).1)
  {
    hide LiteralOk, Cut, AfterLast, Until;
    FoldMember(s, r, '@');
    FoldMember(s, r, '[');
    FoldMember(s, r, ']');
    AfterLastSplits(s, '@');
    AfterLastSplits(r, '@');
    FoldUntil(s, r, {'['});
    FoldCut(s, r, ':');
    FoldLiteral(Cut(s, ':').0, Cut(r, ':').0);
    var n := Until(s, {'['});
    if n < |s| {
      var x, y := s[n + 1..], r[n + 1..];
      FoldCut(x, y, ']');
      FoldLiteral(Cut(x, ']').0, Cut(y, ']').0);
      FoldCut(Cut(x, ']').1, Cut(y, ']').1, ':');
    }
    hide Folds;
  }

  lemma FoldPortField(s: string, r: string)
    requires Folds(s, r) && '@' !in s
    ensures PortField(r) == PortField(s)
  {
    hide HostPort, BracketsOk, Value;
    FoldNetloc(s, r);
    FoldNonDigits(HostPort(s).1, HostPort(r).1);
  }

  lemma FoldSuffix(s: string, r: string, n: nat)
    requires Folds(s, r) && n <= |s|
    ensures |r| == |s| && Folds(s[n..], r[n..])
  {
  }

  lemma FoldHead(s: string, r: string, c: char)
    requires Folds(s, r) && c != KELVIN && c != 'k'
    ensures |r| == |s| && (s != "" ==> (s[0] == c <==> r[0] == c))
  {
  }

  lemma FoldExplicitPort(s: string, r: string, isIp: bool)
    requires Folds(s, r)
    ensures ExplicitPort(r, isIp) == ExplicitPort(s, isIp)
  {
    hide AfterLast, Until, PortOf, Folds;
    FoldHead(s, r, '[');
    if isIp && s != "" && s[0] == '[' {
      FoldUntil(s, r, {']'});
      var n := Until(s, {']'});
      if n < |s| {
        FoldSuffix(s, r, n + 1);
        var x, y := s[n + 1..], r[n + 1..];
        FoldHead(x, y, ':');
        if x != "" {
          FoldSuffix(x, y, 1);
          FoldPortOf(x[1..], y[1..]);
        }
      }
    } else {
      FoldMember(s, r, ':');
      FoldAfterLast(s, r, ':');
      FoldPortOf(AfterLast(s, ':'), AfterLast(r, ':'));
    }
  }

  lemma FoldPortOf(s: string, r: string)
    requires Folds(s, r)
    ensures PortOf(s) == PortOf(r)
  {
    FoldNonDigits(s, r);
    hide Value, AllDigits;
  }

  lemma FoldHostname(s: string, r: string)
    requires Folds(s, r) && '@' !in s && '%' !in HostPort(s).0
    ensures '%' !in HostPort(r).0 && Hostname(r) == Hostname(s)
  {
    hide HostPort, Until, Lower;
    FoldNetloc(s, r);
    FoldMember(HostPort(s).0, HostPort(r).0, '%');
    NoZone(HostPort(s).0);
    NoZone(HostPort(r).0);
    FoldLower(HostPort(s).0, HostPort(r).0);
  }

  /** A host with a '%' is never good. */
  lemma PercentRefused(alabel: string -> bool, host: string)
    requires '%' in host
    ensures ValidatedHost(alabel, host).Err?
  {
    hide Ipv4, Ipv6, LabelsOk, DomainOk, DottedNumeric, Lower, HostOk, HostChar;
    if ValidatedHost(alabel, host).Ok? {
      ValidatedIsGood(alabel, host);
      var h := Lower(host);
      HostChars(alabel, h);
      HostPlain(h);
      PercentStays(host);
    }
  }

  lemma PercentStays(host: string)
    requires '%' in host
    ensures '%' in Lower(host)
  {
    var i :| 0 <= i < |host| && host[i] == '%';
    assert Lower(host)[i] == '%';
  }

  lemma PercentInName(netloc: string)
    requires '%' in HostPort(netloc).0
    ensures '%' in Hostname(netloc)
  {
    hide HostPort, Lower;
    var host := HostPort(netloc).0;
    var n := Until(host, {'%'});
    hide Until;
    assert host[n..][0] == '%';
  }

  //////////////////////////////////////////////////////////////////////////////
  // Whole texts
  //////////////////////////////////////////////////////////////////////////////

  lemma {:induction false} FoldLength(s: string, r: string)
    requires Folds(s, r)
    ensures Utf8Length(r) <= Utf8Length(s)
  {
    if s != "" {
      FoldLength(s[1..], r[1..]);
    }
  }

  lemma FoldEscapes(s: string, r: string)
    requires Folds(s, r) && WellEscaped(s) && NoEscapedControl(s)
    ensures WellEscaped(r) && NoEscapedControl(r)
  {
    forall i | 0 <= i < |r| && r[i] == '%'
      ensures i + 2 < |r| && Hex(r[i + 1]) && Hex(r[i + 2]) && !EscapedControl(r, i)
    {
      assert s[i] == '%' && !EscapedControl(s, i);
      assert r[i + 1] == s[i + 1] && r[i + 2] == s[i + 2];
      if i + 5 < |s| && r[i + 3] == '%' {
        assert s[i + 3] == '%' && r[i + 4] == s[i + 4] && r[i + 5] == s[i + 5];
      }
    }
  }

  lemma FoldFaultless(s: string, r: string)
    requires Folds(s, r) && RawFault(s).None?
    ensures RawFault(r).None?
  {
    FoldEscapes(s, r);
    FoldLength(s, r);
    FoldMember(s, r, '\\');
    FoldSpaces(s, r);
    hide WellEscaped, NoEscapedControl, Utf8Length, Strips, Control;
  }

  lemma FoldSpaces(s: string, r: string)
    requires Folds(s, r) && !Strips(s) && forall c :: c in s ==> !Control(c)
    ensures !Strips(r) && forall c :: c in r ==> !Control(c)
  {
    forall c | c in r ensures !Control(c) {
      var i :| 0 <= i < |r| && r[i] == c;
      assert s[i] in s;
    }
  }

  /** Where the authority of a text stands. */
  lemma ReachedShape(raw: string)
    requires ReachesHost(raw)
    ensures var p := Split(raw).value;
      var name, at := |p.scheme|, |p.scheme| + 3 + |p.netloc|;
      && at <= |raw| && Shape(raw, raw[..name], p.netloc, raw[at..]) && SchemeName(raw[..name])
      && Lower(raw[..name]) == p.scheme && p == Tail(p.scheme, p.netloc, raw[at..]) && BracketsOk(p.netloc)
  {
    hide RawFault, Split, BracketsOk, SchemeName, Tail, Lower, SchemeChar;
    var p := Split(raw).value;
    var name, tail := SplitInverse(raw);
    TailOfNames(Lower(name), p.netloc, tail);
    assert |name| == |p.scheme|;
    assert raw[..|name|] == name && raw[|name| + 3 + |p.netloc|..] == tail;
  }

  /** The text with k for every Kelvin sign of its authority. */
  ghost function FoldAuthority(raw: string): string
    requires ReachesHost(raw)
  {
    ReachedShape(raw);
    var p := Split(raw).value;
    var at := |p.scheme| + 3 + |p.netloc|;
    raw[..|p.scheme|] + "://" + FoldText(p.netloc) + raw[at..]
  }

  lemma FoldAuthoritySplits(raw: string)
    requires ReachesHost(raw)
    ensures var p, r := Split(raw).value, FoldAuthority(raw);
      && Folds(raw, r) && Folds(p.netloc, FoldText(p.netloc))
      && Split(r) == Ok(p.(netloc := FoldText(p.netloc)))
      && ('?' in Cut(r, '#').0 <==> '?' in Cut(raw, '#').0)
  {
    hide RawFault, Split, BracketsOk, SchemeName, Tail, Lower, SchemeChar, Cut, HostPort;
    ReachedShape(raw);
    var p := Split(raw).value;
    var name, at := raw[..|p.scheme|], |p.scheme| + 3 + |p.netloc|;
    var folded, tail := FoldText(p.netloc), raw[at..];
    var r := FoldAuthority(raw);
    assert raw == name + "://" + p.netloc + tail && r == name + "://" + folded + tail;
    FoldNetloc(p.netloc, folded);
    forall c | c in folded ensures c !in {'/', '?', '#'} {
      var i :| 0 <= i < |folded| && folded[i] == c;
      assert p.netloc[i] in p.netloc;
    }
    SplitShape(r, name, folded, tail);
    TailOfNames(p.scheme, p.netloc, tail);
    TailOfNames(p.scheme, folded, tail);
    TailParts(p.scheme, p.netloc, folded, tail);
    MarkerInTail(raw, name, p.netloc, tail);
    MarkerInTail(r, name, folded, tail);
  }

  lemma TailParts(scheme: string, a: string, b: string, tail: string)
    ensures Tail(scheme, b, tail) == Tail(scheme, a, tail).(netloc := b)
  {
    hide Cut;
  }

  lemma FoldReaches(raw: string)
    requires ReachesHost(raw)
    ensures ReachesHost(FoldAuthority(raw))
  {
    hide RawFault, Split, FoldAuthority, HostPort, BracketsOk, Cut, Folds;
    FoldAuthoritySplits(raw);
    FoldFaultless(raw, FoldAuthority(raw));
    FoldNetloc(Split(raw).value.netloc, FoldText(Split(raw).value.netloc));
  }

  /** Writing k for the Kelvin signs of the authority changes neither whether a text is accepted nor its result;
      without a '%' in the host it does not even change the code of a rejection. */
  lemma FoldIrrelevant(alabel: string -> bool, raw: string)
    requires ReachesHost(raw)
    ensures var folded := FoldAuthority(raw);
      && (Canonicalize(alabel, raw).Ok? || Canonicalize(alabel, folded).Ok? || '%' !in RawHost(raw)
          ==> Canonicalize(alabel, raw) == Canonicalize(alabel, folded))
  {
    hide RawFault, Split, FoldAuthority, HostPort, Hostname, BracketsOk, Cut, Folds, ValidatedHost, PortField,
      ExplicitPort, Encode, Utf8Length, Decimal, FoldText;
    FoldAuthoritySplits(raw);
    FoldReaches(raw);
    var p, folded := Split(raw).value, FoldAuthority(raw);
    var netloc := FoldText(p.netloc);
    FoldNetloc(p.netloc, netloc);
    FoldPortField(p.netloc, netloc);
    FoldExplicitPort(p.netloc, netloc, true);
    FoldExplicitPort(p.netloc, netloc, false);
    if '%' in RawHost(raw) {
      FoldMember(HostPort(p.netloc).0, HostPort(netloc).0, '%');
      PercentInName(p.netloc);
      PercentInName(netloc);
      PercentRefused(alabel, Hostname(p.netloc));
      PercentRefused(alabel, Hostname(netloc));
    } else {
      FoldHostname(p.netloc, netloc);
    }
  }

  //////////////////////////////////////////////////////////////////////////////
  // An accepted host beyond ASCII
  //////////////////////////////////////////////////////////////////////////////

  const KELVIN_HOST: string := "\U{212A}.com"
  const KELVIN_URL: string := "http://\U{212A}.com/"

  lemma {:induction false} Utf8AtMost(s: string)
    ensures Utf8Length(s) <= 4 * |s|
  {
    if s != "" { Utf8AtMost(s[1..]); }
  }

  /** A short text without escapes whose characters are printable or Kelvin signs. */
  lemma PlainFaultless(s: string)
    requires s != "" && |s| <= 512 && '%' !in s && forall c :: c in s ==> UrlChar(c) || c == KELVIN
    ensures RawFault(s).None?
  {
    hide UrlChar, White, Control, EscapesOk, WellEscaped, NoEscapedControl, Utf8Length;
    Utf8AtMost(s);
    NoEscapes(s);
    OkIsWell(s);
    forall c | c in s ensures !Control(c) && c != '\\' && !White(c) {
      KelvinPrints(c);
    }
    assert s[0] in s && s[|s| - 1] in s;
  }

  lemma KelvinPrints(c: char)
    requires UrlChar(c) || c == KELVIN
    ensures !Control(c) && c != '\\' && !White(c)
  {
  }

  lemma KelvinSplits()
    ensures Split(KELVIN_URL) == Ok(Parsed("http", KELVIN_HOST, "/", "", ""))
    ensures HostPort(KELVIN_HOST) == (KELVIN_HOST, "")
  {
    hide Split, Tail, Lower, Cut, HostPort, SchemeName;
    SchemeLower("http");
    assert KELVIN_URL == "http" + "://" + KELVIN_HOST + "/";
    SplitShape(KELVIN_URL, "http", KELVIN_HOST, "/");
    TailRender("http", KELVIN_HOST, "/", None);
    assert "/" + QueryText(None) == "/";
    PlainHostPort(KELVIN_HOST);
    CutNone(KELVIN_HOST, ':');
  }

  lemma SplitWhole(s: string, c: char)
    requires c !in s
    ensures SplitOn(s, c) == [s]
  {
  }

  lemma PlainLabels()
    ensures SplitOn("k.com", '.') == ["k", "com"]
  {
    hide Until, SplitOn;
    var h := "k.com";
    UntilIs(h, {'.'}, 1);
    assert h[1] in h && h[..1] == "k" && h[2..] == "com";
    SplitHead(h);
    SplitWhole("com", '.');
  }

  lemma PlainDomain(alabel: string -> bool)
    ensures DomainOk(alabel, "k.com")
  {
    hide SplitOn;
    PlainLabels();
  }

  lemma SlashComponent()
    ensures ComponentOk("/", false)
  {
    NoEscapes("/");
    hide EscapesOk;
  }

  lemma PlainIsGood(alabel: string -> bool)
    ensures Good(alabel, Identity("http", "k.com", None, "/", None))
  {
    hide ComponentOk, DomainOk, Ipv4, Ipv6;
    PlainDomain(alabel);
    SlashComponent();
  }

  /** A host beyond ASCII that the canonicalizer accepts. */
  lemma KelvinAccepted(alabel: string -> bool)
    ensures Canonicalize(alabel, KELVIN_URL) == Ok("http://k.com/")
  {
    hide RawFault, Split, HostPort, Canonicalize, Good, Render, FoldText, Authority;
    var id := Identity("http", "k.com", None, "/", None);
    PlainFaultless(KELVIN_URL);
    KelvinSplits();
    FoldIrrelevant(alabel, KELVIN_URL);
    KelvinText(id);
    PlainIsGood(alabel);
    GoodIsFixed(alabel, id);
  }

  lemma KelvinText(id: Identity)
    requires id == Identity("http", "k.com", None, "/", None)
    ensures Render(id) == "http://k.com/"
    ensures "http" + "://" + FoldText(KELVIN_HOST) + KELVIN_URL[12..] == "http://k.com/"
    ensures KELVIN_URL[..4] == "http"
  {
    assert FoldText(KELVIN_HOST) == "k.com";
  }
}
