/** The canonicalizer, and what its results are. */
module UrlCanonical {
  import opened Outcomes
  import opened Texts
  import opened UrlHosts
  import opened UrlComponents
  import opened UrlParse

  const MAX_URL_BYTES: nat := 2048

  //////////////////////////////////////////////////////////////////////////////
  // Host and port
  //////////////////////////////////////////////////////////////////////////////

  predicate LabelsOk(alabel: string -> bool, host: string) {
    && |host| <= 253 && (host != "" ==> host[|host| - 1] != '.')
    && (forall p :: p in SplitOn(host, '.') ==> HostLabel(p))
    && (forall p :: p in SplitOn(host, '.') && "xn--" <= Lower(p) ==> alabel(Lower(p)))
  }

  /** _validated_host: the lower-case host, and whether it is an address literal. */
  function ValidatedHost(alabel: string -> bool, host: string): Result<(string, bool)> {
    if host == "" then Err("invalid_host")
    else if exists c :: c in host && !Ascii(c) then Err("non_ascii_host_v1")
    else
      var lowered := Lower(host);
      if '%' in lowered && ':' in lowered then Err("invalid_host")
      else if Ipv4(lowered) || Ipv6(lowered) then Ok((lowered, true))
      else if ':' in lowered || DottedNumeric(lowered) then Err("invalid_host")
      else if !LabelsOk(alabel, lowered) then Err("invalid_host")
      else Ok((lowered, false))
  }

  function PortOf(text: string): Result<Option<nat>> {
    if text == "" || !AllDigits(text) || !(1 <= Value(text) <= 65535) then Err("invalid_port")
    else Ok(Some(Value(text)))
  }

  /** _explicit_port */
  function ExplicitPort(netloc: string, isIp: bool): Result<Option<nat>> {
    if isIp && netloc != "" && netloc[0] == '[' then
      var closing := Until(netloc, {']'});
      if closing == |netloc| then Err("invalid_host")
      else
        var remainder := netloc[closing + 1..];
        if remainder == "" then Ok(None)
        else if remainder[0] != ':' then Err("invalid_host")
        else PortOf(remainder[1..])
    else if ':' !in netloc then Ok(None)
    else PortOf(AfterLast(netloc, ':'))
  }

  /** Lowering a lower-case label changes nothing, so the two A-label tests are one. */
  lemma LabelsAreDomain(alabel: string -> bool, host: string)
    requires host != "" && Lower(host) == host && !DottedNumeric(host)
    ensures LabelsOk(alabel, host) <==> DomainOk(alabel, host)
  {
    hide DottedNumeric, Lower, SplitOn;
    LowerLabels(host);
    forall p | p in SplitOn(host, '.') && HostLabel(p) ensures Lower(p) == p { LowerPart(host, p); }
    if forall p :: p in SplitOn(host, '.') ==> DnsLabel(p) {
      LastLabel(host);
    }
  }

  lemma LowerPart(host: string, p: string)
    requires Lower(host) == host && p in SplitOn(host, '.') && HostLabel(p)
    ensures Lower(p) == p
  {
    hide SplitOn;
    forall i | 0 <= i < |p| ensures LowerChar(p[i]) == p[i] {
      SplitChars(host, '.', p[i]);
      assert p[i] in p && p[i] in host;
      var k :| 0 <= k < |host| && host[k] == p[i];
      assert LowerChar(host[k]) == Lower(host)[k];
    }
  }

  /** A trailing dot leaves an empty last label. */
  lemma {:induction false} LastLabel(host: string)
    requires host != "" && "" !in SplitOn(host, '.')
    ensures host[|host| - 1] != '.'
  {
    hide SplitOn, Until;
    if '.' in host {
      var n := Until(host, {'.'});
      var rest := host[n + 1..];
      EmptySplit();
      SplitHead(host);
      RestLabels(host[..n], SplitOn(rest, '.'));
      if rest != "" {
        LastLabel(rest);
        assert host[|host| - 1] == rest[|rest| - 1];
      }
    } else {
      assert host[|host| - 1] in host;
    }
  }

  lemma SplitHead(host: string)
    requires '.' in host
    ensures var n := Until(host, {'.'});
      n < |host| && SplitOn(host, '.') == [host[..n]] + SplitOn(host[n + 1..], '.')
  {
  }

  lemma RestLabels(first: string, rest: seq<string>)
    ensures "" in rest ==> "" in [first] + rest
  {
  }

  lemma EmptySplit()
    ensures "" in SplitOn("", '.')
  {
    assert SplitOn("", '.') == [""];
  }

  lemma LowerTwice(s: string)
    ensures Lower(Lower(s)) == Lower(s)
  {
  }

  lemma ValidatedIsGood(alabel: string -> bool, host: string)
    requires ValidatedHost(alabel, host).Ok?
    ensures var (h, isIp) := ValidatedHost(alabel, host).value;
      h == Lower(host) && HostOk(alabel, h) && (isIp <==> Ipv4(h) || Ipv6(h))
  {
    hide Ipv4, Ipv6, DottedNumeric, Lower, LabelsOk, DomainOk;
    LowerTwice(host);
    var h := Lower(host);
    if !Ipv4(h) && !Ipv6(h) {
      LabelsAreDomain(alabel, h);
    }
  }

  lemma GoodIsValidated(alabel: string -> bool, h: string)
    requires HostOk(alabel, h)
    ensures ValidatedHost(alabel, h) == Ok((h, Ipv4(h) || Ipv6(h)))
  {
    HostChars(alabel, h);
    hide Ipv4, Ipv6, DottedNumeric, Lower, LabelsOk, HostChar;
    forall c | c in h ensures Ascii(c) && c != '%' { HostCharPlain(c); HostCharAscii(c); }
    if !Ipv4(h) && !Ipv6(h) {
      assert !DottedNumeric(h);
      LabelsAreDomain(alabel, h);
    }
  }

  lemma HostCharAscii(c: char)
    requires HostChar(c)
    ensures Ascii(c)
  {
  }

  lemma PortOfDecimal(port: nat)
    requires 1 <= port <= 65535
    ensures PortOf(Decimal(port)) == Ok(Some(port))
  {
    ValueOfDecimal(port);
    hide Decimal, Value;
  }

  lemma BracketedPort(host: string, p: string)
    requires ']' !in host && (p == "" || p[0] == ':')
    ensures var t := "[" + host + "]" + p;
      ExplicitPort(t, true) == if p == "" then Ok(None) else PortOf(p[1..])
  {
    hide Until, PortOf, AfterLast;
    var t := "[" + host + "]" + p;
    UntilIs(t, {']'}, |host| + 1);
    assert t[|host| + 2..] == p && t[0] == '[';
  }

  lemma PlainPort(host: string, port: Option<nat>, isIp: bool)
    requires ':' !in host && '[' !in host
    ensures ExplicitPort(host + PortSuffix(port), isIp) == if port.None? then Ok(None) else PortOf(Decimal(port.value))
  {
    hide Until, PortOf, AfterLast, Value, Decimal;
    SuffixSplits(port);
    NotBracket(host, PortSuffix(port));
    var t := host + PortSuffix(port);
    if port.Some? {
      var d := Decimal(port.value);
      assert AllDigits(d);
      assert t[|host|] == ':' && t == host + [':'] + d;
      LastPart(host, d, ':');
    } else {
      assert t == host;
    }
  }

  /** The port of a canonical authority is read back. */
  lemma ExplicitPortGood(alabel: string -> bool, host: string, port: Option<nat>)
    requires HostOk(alabel, host) && (port.Some? ==> 1 <= port.value <= 65535)
    ensures ExplicitPort(Authority(host, port), Ipv4(host) || Ipv6(host)) == Ok(port)
  {
    hide HostOk, Ipv4, Ipv6, PortOf, Decimal, HostChar, ExplicitPort;
    HostChars(alabel, host);
    HostPlain(host);
    if port.Some? { PortOfDecimal(port.value); }
    if ':' in host {
      BracketedPort(host, PortSuffix(port));
    } else {
      PlainPort(host, port, Ipv4(host) || Ipv6(host));
    }
  }

  lemma NotBracket(host: string, p: string)
    requires '[' !in host && (p == "" || p[0] == ':')
    ensures host + p != "" ==> (host + p)[0] != '['
  {
    if host != "" { assert host[0] in host; }
  }

  lemma {:induction false} LastPart(a: string, b: string, c: char)
    requires c !in b
    ensures AfterLast(a + [c] + b, c) == b
    decreases b
  {
    var s := a + [c] + b;
    if b != "" {
      var front, last := b[..|b| - 1], b[|b| - 1];
      assert last in b && s[|s| - 1] == last;
      LastPart(a, front, c);
      assert s[..|s| - 1] == a + [c] + front;
      assert front + [last] == b;
    } else {
      assert s[|s| - 1] == c;
    }
  }

  //////////////////////////////////////////////////////////////////////////////
  // The canonicalizer
  //////////////////////////////////////////////////////////////////////////////

  /** str.strip() would change the text. */
  predicate Strips(s: string) { s != "" && (White(s[0]) || White(s[|s| - 1])) }

  function RawFault(raw: string): Option<string> {
    if raw == "" then Some("absolute_url_required")
    else if Utf8Length(raw) > MAX_URL_BYTES then Some("url_too_long")
    else if Strips(raw) || exists c :: c in raw && Control(c) then Some("whitespace_or_control")
    else if '\\' in raw then Some("backslash_forbidden")
    else if !WellEscaped(raw) then Some("malformed_escape")
    else if !NoEscapedControl(raw) then Some("encoded_control")
    else None
  }

  function Assemble(p: Parsed, raw: string, host: string, isIp: bool, port: Option<nat>): string {
    var defaultPort := if p.scheme == "http" then 80 else 443;
    var bare := if isIp && ':' in host then "[" + host + "]" else host;
    var authority := if port.Some? && port.value != defaultPort then bare + ":" + Decimal(port.value) else bare;
    var path := Encode(if p.path == "" then "/" else p.path, false);
    var query := Encode(p.query, true);
    var marked := '?' in Cut(raw, '#').0;
    p.scheme + "://" + authority + path + (if marked then "?" + query else "")
  }

  /** canonicalize_url */
  function Canonicalize(alabel: string -> bool, raw: string): Result<string> {
    if RawFault(raw).Some? then Err(RawFault(raw).value)
    else if Split(raw).Err? then Err("invalid_host")
    else
      var p := Split(raw).value;
      if p.scheme == "" then Err("absolute_url_required")
      else if p.scheme !in ["http", "https"] then Err("scheme_not_allowed")
      else if p.netloc == "" then Err("absolute_url_required")
      else if '@' in p.netloc then Err("userinfo_forbidden")
      else
        match ValidatedHost(alabel, Hostname(p.netloc))
        case Err(code) => Err(code)
        case Ok((host, isIp)) =>
          if PortField(p.netloc).Err? then Err("invalid_port")
          else
            match ExplicitPort(p.netloc, isIp)
            case Err(code) => Err(code)
            case Ok(port) =>
              var canonical := Assemble(p, raw, host, isIp, port);
              if Utf8Length(canonical) > MAX_URL_BYTES then Err("url_too_long") else Ok(canonical)
  }

  //////////////////////////////////////////////////////////////////////////////
  // Results are canonical
  //////////////////////////////////////////////////////////////////////////////

  ghost predicate IsCanonical(alabel: string -> bool, u: string) {
    |u| <= MAX_URL_BYTES && exists id :: Good(alabel, id) && u == Render(id)
  }

  /** The query marker is a '?' of the tail: none precedes it. */
  lemma MarkerInTail(u: string, name: string, netloc: string, tail: string)
    requires Shape(u, name, netloc, tail)
    ensures '?' in Cut(u, '#').0 <==> '?' in Cut(tail, '#').0
  {
    hide SchemeChar, Until;
    var head := name + "://" + netloc;
    forall c | c in head ensures c != '?' && c != '#' {
      assert c in name || c in "://" || c in netloc;
      if c in name { SchemeCharPlain(c); }
    }
    CutBehind(head, tail, '#');
    assert u == head + tail;
    assert forall c :: c in head + Cut(tail, '#').0 <==> c in head || c in Cut(tail, '#').0;
  }

  lemma SchemeCharPlain(c: char)
    requires SchemeChar(c)
    ensures c != '?' && c != '#'
  {
  }

  lemma CutBehind(head: string, tail: string, c: char)
    requires c !in head
    ensures Cut(head + tail, c).0 == head + Cut(tail, c).0
  {
    var s, n := head + tail, Until(tail, {c});
    UntilIs(s, {c}, |head| + n);
    assert s[..|head| + n] == head + tail[..n];
    hide Until;
  }

  /** The path and the query of a tail are slices that end at a delimiter. */
  lemma TailSlices(u: string, at: nat)
    requires at <= |u| && WellEscaped(u) && NoEscapedControl(u)
    requires at < |u| ==> u[at] in {'/', '?', '#'}
    ensures var p := Tail("", "", u[at..]);
      && WellEscaped(p.path) && NoEscapedControl(p.path) && WellEscaped(p.query) && NoEscapedControl(p.query)
      && (forall c :: c in p.path || c in p.query ==> c in u)
      && (p.path != "" ==> p.path[0] == '/')
      && ('?' !in Cut(u[at..], '#').0 ==> p.query == "")
  {
    hide WellEscaped, NoEscapedControl, Until;
    var tail := u[at..];
    var f := Until(tail, {'#'});
    var body := tail[..f];
    var q := Until(body, {'?'});
    assert body[..q] == u[at..at + q];
    SliceEscapes(u, at, at + q);
    if q < |body| {
      assert body[q + 1..] == u[at + q + 1..at + f];
      SliceEscapes(u, at + q + 1, at + f);
    } else {
      EmptyEscapes();
    }
  }

  lemma EmptyEscapes()
    ensures WellEscaped("") && NoEscapedControl("")
  {
  }

  lemma EncodeSlash(s: string)
    requires s != "" && s[0] == '/' && WellEscaped(s) && NoEscapedControl(s) && (forall c :: c in s ==> !Control(c))
    ensures Encode(s, false) != "" && Encode(s, false)[0] == '/'
  {
    EncodeStep(s, false);
    hide WellEscaped, NoEscapedControl, Encode;
  }

  lemma TailOfNames(name: string, netloc: string, tail: string)
    ensures var p, q := Tail(name, netloc, tail), Tail("", "", tail);
      p.path == q.path && p.query == q.query && p.scheme == name && p.netloc == netloc
  {
  }

  /** The encoded path and query of an accepted text are canonical components. */
  lemma EncodedOk(raw: string, p: Parsed, name: string, tail: string)
    requires RawFault(raw).None? && Shape(raw, name, p.netloc, tail) && p == Tail(p.scheme, p.netloc, tail)
    ensures var path, query := Encode(if p.path == "" then "/" else p.path, false), Encode(p.query, true);
      && ComponentOk(path, false) && path != "" && path[0] == '/' && ComponentOk(query, true)
  {
    hide WellEscaped, NoEscapedControl, ComponentOk, Encode, Tail, Control;
    var at := |name| + 3 + |p.netloc|;
    assert raw[at..] == tail;
    TailOfNames(p.scheme, p.netloc, tail);
    TailSlices(raw, at);
    SlashOk();
    var path := if p.path == "" then "/" else p.path;
    EncodeOk(path, false);
    EncodeSlash(path);
    EncodeOk(p.query, true);
  }

  lemma SlashOk()
    ensures WellEscaped("/") && NoEscapedControl("/") && forall c :: c in "/" ==> !Control(c)
  {
  }

  lemma ExplicitPortRange(netloc: string, isIp: bool)
    requires ExplicitPort(netloc, isIp).Ok?
    ensures var port := ExplicitPort(netloc, isIp).value; port.Some? ==> 1 <= port.value <= 65535
  {
    hide Until, AfterLast, Value;
  }

  /** The identity that an accepted text stands for. */
  function IdentityOf(p: Parsed, raw: string, host: string, port: Option<nat>): Identity {
    Identity(p.scheme, host,
             if port.Some? && port.value != DefaultPort(p.scheme) then port else None,
             Encode(if p.path == "" then "/" else p.path, false),
             if '?' in Cut(raw, '#').0 then Some(Encode(p.query, true)) else None)
  }

  lemma AssembleIsRender(p: Parsed, raw: string, host: string, isIp: bool, port: Option<nat>)
    requires ':' in host ==> isIp
    ensures Assemble(p, raw, host, isIp, port) == Render(IdentityOf(p, raw, host, port))
  {
    hide Encode, Cut, Decimal;
    var id := IdentityOf(p, raw, host, port);
    var authority := Authority(host, id.port);
    if id.port.None? {
      assert authority + "" == authority;
    } else {
      assert (if ':' in host then "[" + host + "]" else host) + ":" + Decimal(port.value) == authority;
    }
    assert p.scheme + "://" + authority + id.path + QueryText(id.query)
        == p.scheme + "://" + authority + (id.path + QueryText(id.query));
  }

  /** Every result is the canonical text of an identity. */
  lemma ResultIsCanonical(alabel: string -> bool, raw: string, u: string)
    ensures Canonicalize(alabel, raw) == Ok(u) ==> IsCanonical(alabel, u)
  {
    hide RawFault, Split, ValidatedHost, Hostname, PortField, ExplicitPort, Assemble, Good, Render, HostOk, IdentityOf;
    if Canonicalize(alabel, raw) != Ok(u) {
      return;
    }
    var p := Split(raw).value;
    var (host, isIp) := ValidatedHost(alabel, Hostname(p.netloc)).value;
    var port := ExplicitPort(p.netloc, isIp).value;
    ValidatedIsGood(alabel, Hostname(p.netloc));
    HostChars(alabel, host);
    AssembleIsRender(p, raw, host, isIp, port);
    AcceptedIsGood(alabel, raw, p, host, isIp, port);
    Utf8AtLeast(u);
  }

  lemma AcceptedIsGood(alabel: string -> bool, raw: string, p: Parsed, host: string, isIp: bool, port: Option<nat>)
    requires RawFault(raw).None? && Split(raw) == Ok(p) && p.scheme in ["http", "https"] && p.netloc != ""
    requires HostOk(alabel, host) && ExplicitPort(p.netloc, isIp) == Ok(port)
    ensures Good(alabel, IdentityOf(p, raw, host, port))
  {
    hide RawFault, Split, ExplicitPort, HostOk, Shape, ComponentOk, Encode, Cut, Tail, BracketsOk;
    var name, tail := SplitInverse(raw);
    TailOfNames(Lower(name), p.netloc, tail);
    EncodedOk(raw, p, name, tail);
    ExplicitPortRange(p.netloc, isIp);
  }

  //////////////////////////////////////////////////////////////////////////////
  // Canonical text is its own result
  //////////////////////////////////////////////////////////////////////////////

  lemma NoEscapes(s: string)
    requires '%' !in s
    ensures EscapesOk(s)
  {
    forall i | 0 <= i < |s| ensures s[i] != '%' { assert s[i] in s; }
    hide EscapedControl;
  }

  /** Pieces that do not begin with an escape join freely. */
  lemma JoinPlain(a: string, b: string)
    requires EscapesOk(a) && EscapesOk(b) && (b == "" || b[0] != '%')
    ensures EscapesOk(a + b)
  {
    JoinEscapes(a, b);
    hide EscapesOk, Byte;
  }

  lemma OkIsWell(s: string)
    requires EscapesOk(s)
    ensures WellEscaped(s) && NoEscapedControl(s)
  {
    hide EscapedControl;
  }

  /** The text of an identity has only printable characters and whole, permitted escapes. */
  lemma RenderText(alabel: string -> bool, id: Identity)
    requires Good(alabel, id)
    ensures var u := Render(id);
      (forall c :: c in u ==> UrlChar(c)) && EscapesOk(u) && WellEscaped(u) && NoEscapedControl(u)
  {
    hide HostOk, Authority, EscapesOk, UrlChar, AuthorityChar, HostPort, Hostname, BracketsOk, Safe, WellEscaped,
      NoEscapedControl;
    var netloc, u := Authority(id.host, id.port), Render(id);
    AuthoritySplits(alabel, id.host, id.port);
    SchemeLower(id.scheme);
    var head := id.scheme + "://" + netloc;
    forall c | c in head ensures UrlChar(c) && c != '%' {
      assert c in id.scheme || c in "://" || c in netloc;
      Punctuation(c);
      if c in netloc { AuthorityUrlChar(c); }
    }
    ComponentChars(id.path, false);
    if id.query.Some? { ComponentChars(id.query.value, true); }
    forall c | c in u ensures UrlChar(c) {
      assert c in head || c in id.path || c in QueryText(id.query);
      QuestionMark(c, id.query);
    }
    NoEscapes(head);
    QueryEscapes(id.query);
    JoinPlain(id.path, QueryText(id.query));
    JoinPlain(head, id.path + QueryText(id.query));
    OkIsWell(u);
  }

  lemma Punctuation(c: char)
    ensures c in "://" ==> UrlChar(c) && c != '%'
  {
  }

  lemma QuestionMark(c: char, query: Option<string>)
    ensures UrlChar('?')
    ensures c in QueryText(query) ==> c == '?' || (query.Some? && c in query.value)
  {
  }

  lemma QueryEscapes(query: Option<string>)
    requires query.Some? ==> EscapesOk(query.value)
    ensures EscapesOk(QueryText(query)) && (query.Some? ==> QueryText(query)[0] == '?')
  {
    if query.Some? {
      NoEscapes("?");
      hide EscapesOk;
      JoinQuery(query.value);
    } else {
      NoEscapes("");
    }
  }

  lemma JoinQuery(s: string)
    requires EscapesOk(s)
    ensures EscapesOk("?" + s)
  {
    NoEscapes("?");
    JoinEscapes("?", s);
  }

  lemma UrlCharIs(c: char)
    requires UrlChar(c)
    ensures Ascii(c) && !Control(c) && c != '\\' && !White(c) && c != '#'
  {
  }

  lemma PrintableFaultless(u: string)
    requires u != "" && |u| <= MAX_URL_BYTES && (forall c :: c in u ==> UrlChar(c))
    requires WellEscaped(u) && NoEscapedControl(u)
    ensures RawFault(u).None? && Utf8Length(u) == |u| && Cut(u, '#').0 == u
  {
    hide UrlChar, White, Control, WellEscaped, NoEscapedControl;
    forall c | c in u ensures Ascii(c) && !Control(c) && c != '\\' && !White(c) && c != '#' { UrlCharIs(c); }
    AsciiLength(u);
    assert u[0] in u && u[|u| - 1] in u;
    CutNone(u, '#');
  }

  lemma PortFieldGood(alabel: string -> bool, host: string, port: Option<nat>)
    requires HostOk(alabel, host) && (port.Some? ==> port.value <= 65535)
    ensures PortField(Authority(host, port)) == Ok(port)
  {
    hide HostOk, HostPort, BracketsOk, Hostname, AuthorityChar;
    AuthoritySplits(alabel, host, port);
    if port.Some? {
      ValueOfDecimal(port.value);
      assert Decimal(port.value) != "";
      hide Decimal, Value;
    }
  }

  /** Canonical text canonicalizes to itself. */
  lemma GoodIsFixed(alabel: string -> bool, id: Identity)
    requires Good(alabel, id) && |Render(id)| <= MAX_URL_BYTES
    ensures Canonicalize(alabel, Render(id)) == Ok(Render(id))
  {
    hide RawFault, Split, ValidatedHost, Hostname, PortField, ExplicitPort, HostOk, Ipv4, Ipv6, Authority, HostPort,
      BracketsOk, ComponentOk, Cut, Assemble, Shape, Render, AuthorityChar, UrlChar, WellEscaped, NoEscapedControl;
    var u, netloc := Render(id), Authority(id.host, id.port);
    GoodShape(alabel, id);
    RenderText(alabel, id);
    RenderNonempty(id);
    PrintableFaultless(u);
    AuthoritySplits(alabel, id.host, id.port);
    GoodIsValidated(alabel, id.host);
    HostChars(alabel, id.host);
    PortFieldGood(alabel, id.host, id.port);
    ExplicitPortGood(alabel, id.host, id.port);
    var isIp := Ipv4(id.host) || Ipv6(id.host);
    var p := Parsed(id.scheme, netloc, id.path, id.query.GetOr(""), "");
    AssembleIsRender(p, u, id.host, isIp, id.port);
    IdentityIsFixed(alabel, id, u);
  }

  lemma RenderNonempty(id: Identity)
    ensures Render(id) != ""
  {
    hide Authority;
  }

  lemma IdentityIsFixed(alabel: string -> bool, id: Identity, u: string)
    requires Good(alabel, id) && u == Render(id) && Cut(u, '#').0 == u
    ensures var p := Parsed(id.scheme, Authority(id.host, id.port), id.path, id.query.GetOr(""), "");
      IdentityOf(p, u, id.host, id.port) == id
  {
    hide HostOk, ComponentOk, Split, BracketsOk, Authority, Render, Cut, Encode;
    var netloc, tail := Authority(id.host, id.port), id.path + QueryText(id.query);
    GoodShape(alabel, id);
    MarkerInTail(u, id.scheme, netloc, tail);
    TailNoFragment(alabel, id);
    EncodeFixed(id.path, false);
    if id.query.Some? { EncodeFixed(id.query.value, true); }
  }

  lemma TailNoFragment(alabel: string -> bool, id: Identity)
    requires Good(alabel, id)
    ensures var tail := id.path + QueryText(id.query);
      Cut(tail, '#').0 == tail && ('?' in tail <==> id.query.Some?)
  {
    hide HostOk, ComponentOk;
    ComponentChars(id.path, false);
    if id.query.Some? { ComponentChars(id.query.value, true); }
    var tail := id.path + QueryText(id.query);
    assert '#' !in tail;
    CutNone(tail, '#');
    TailRender("", "", id.path, id.query);
  }

  /** The fixed points are exactly the canonical texts. */
  lemma FixedIsCanonical(alabel: string -> bool, u: string)
    ensures Canonicalize(alabel, u) == Ok(u) <==> IsCanonical(alabel, u)
  {
    hide Canonicalize, Good, Render;
    if Canonicalize(alabel, u) == Ok(u) {
      ResultIsCanonical(alabel, u, u);
    }
    if IsCanonical(alabel, u) {
      var id :| Good(alabel, id) && u == Render(id);
      GoodIsFixed(alabel, id);
    }
  }

  /** canonicalize_url is idempotent on every text that it accepts. */
  lemma CanonicalizeIdempotent(alabel: string -> bool, raw: string, u: string)
    ensures Canonicalize(alabel, raw) == Ok(u) ==> Canonicalize(alabel, u) == Ok(u)
  {
    hide Canonicalize, IsCanonical;
    ResultIsCanonical(alabel, raw, u);
    FixedIsCanonical(alabel, u);
  }
}
