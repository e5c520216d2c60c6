/** The two validators of canonical URLs, and their agreement with the canonicalizer. */
module UrlValidators {
  import opened Outcomes
  import opened Texts
  import opened UrlHosts
  import opened UrlComponents
  import opened UrlParse
  import opened UrlCanonical

  //////////////////////////////////////////////////////////////////////////////
  // The backlinks processor's validator
  //////////////////////////////////////////////////////////////////////////////

  /** Every escape is already in upper case. */
  predicate UpperOnly(s: string)
    requires WellEscaped(s)
  {
    forall i :: 0 <= i < |s| && s[i] == '%' ==> UpperHex(s[i + 1]) && UpperHex(s[i + 2])
  }

  /** _valid_component */
  predicate ValidChars(s: string, query: bool) {
    forall c :: c in s ==> c == '%' || Safe(c, query)
  }

  function TextFault(value: string): Option<string> {
    if value == "" then Some("url_invalid")
    else if Utf8Length(value) > MAX_URL_BYTES then Some("url_too_long")
    else if (exists c :: c in value && !Ascii(c)) || Strips(value) || '\\' in value then Some("url_noncanonical")
    else if exists c :: c in value && Control(c) then Some("url_noncanonical")
    else if !WellEscaped(value) || !UpperOnly(value) then Some("url_noncanonical")
    else if !NoEscapedControl(value) || '#' in value then Some("url_noncanonical")
    else None
  }

  function HostFault(alabel: string -> bool, host: string): Option<string> {
    if host == "" || '%' in host || host != Lower(host) || exists c :: c in host && !Ascii(c) then
      Some("url_noncanonical")
    else if Ipv4(host) || Ipv6(host) then None
    else if DottedNumeric(host) || |host| > 253 || host[|host| - 1] == '.' then Some("url_invalid")
    else if exists p :: p in SplitOn(host, '.') && !HostLabel(p) then Some("url_invalid")
    else if !Alabels(alabel, host) then Some("url_invalid")
    else None
  }

  /** validate_canonical_url: the code of the rejection, or none. */
  function CanonicalFault(alabel: string -> bool, value: string): Option<string> {
    if TextFault(value).Some? then TextFault(value)
    else if Split(value).Err? || PortField(Split(value).value.netloc).Err? then Some("url_invalid")
    else
      var p := Split(value).value;
      var port := PortField(p.netloc).value;
      if p.scheme !in ["http", "https"] || !(p.scheme + "://" <= value) || p.netloc == "" then Some("url_invalid")
      else if '@' in p.netloc then Some("url_noncanonical")
      else
        var host := Hostname(p.netloc);
        if HostFault(alabel, host).Some? then HostFault(alabel, host)
        else
          var bare := if Ipv6(host) then "[" + host + "]" else host;
          if port.Some? && (port.value < 1 || port.value == DefaultPort(p.scheme)) then Some("url_noncanonical")
          else if p.netloc != bare + PortSuffix(port) || p.path == "" then Some("url_noncanonical")
          else if !ValidChars(p.path, false) || !ValidChars(p.query, true) then Some("url_noncanonical")
          else None
  }

  lemma UpperIsOk(s: string)
    requires WellEscaped(s) && NoEscapedControl(s) && UpperOnly(s)
    ensures EscapesOk(s)
  {
    hide EscapedControl, UpperHex;
  }

  lemma OkIsUpper(s: string)
    requires EscapesOk(s) && WellEscaped(s)
    ensures UpperOnly(s)
  {
    hide EscapedControl, UpperHex;
  }

  /** A slice of upper-case escapes that ends where no hexadecimal digit follows. */
  lemma SliceOk(u: string, a: nat, b: nat)
    requires a <= b <= |u| && EscapesOk(u) && (b < |u| ==> !Hex(u[b]))
    ensures EscapesOk(u[a..b])
  {
    OkIsWell(u);
    SliceEscapes(u, a, b);
    var s := u[a..b];
    forall i | 0 <= i < |s| && s[i] == '%' ensures UpperHex(s[i + 1]) && UpperHex(s[i + 2]) {
      assert u[a + i] == '%';
    }
    UpperIsOk(s);
    hide *;
  }

  /** The path and query of a text with permitted escapes and no fragment. */
  lemma TailOk(u: string, at: nat, p: Parsed)
    requires at <= |u| && EscapesOk(u) && '#' !in u && p == Tail(p.scheme, p.netloc, u[at..])
    ensures EscapesOk(p.path) && EscapesOk(p.query)
  {
    hide EscapesOk, Until;
    var tail := u[at..];
    assert '#' !in tail;
    CutNone(tail, '#');
    var q := Until(tail, {'?'});
    assert tail[..q] == u[at..at + q];
    SliceOk(u, at, at + q);
    if q < |tail| {
      assert tail[q + 1..] == u[at + q + 1..|u|];
      SliceOk(u, at + q + 1, |u|);
    } else {
      NoEscapes("");
    }
  }

  lemma HostFaultIs(alabel: string -> bool, host: string)
    ensures HostFault(alabel, host).None? ==> HostOk(alabel, host)
    ensures HostOk(alabel, host) ==> HostFault(alabel, host).None?
  {
    hide Ipv4, Ipv6, DottedNumeric, Lower, Alabels, HostLabel, DnsLabel, SplitOn, HostChar;
    if HostFault(alabel, host).None? && !Ipv4(host) && !Ipv6(host) {
      LowerLabels(host);
    }
    if HostOk(alabel, host) {
      HostChars(alabel, host);
      forall c | c in host ensures Ascii(c) && c != '%' { HostCharPlain(c); HostCharAscii(c); }
      if !Ipv4(host) && !Ipv6(host) {
        LowerLabels(host);
        NoEmptyLabel();
        LastLabel(host);
      }
    }
  }

  lemma NoEmptyLabel()
    ensures !DnsLabel("")
  {
  }

  /** Whatever the validator passes is canonical. */
  lemma PassedIsCanonical(alabel: string -> bool, u: string)
    requires CanonicalFault(alabel, u).None?
    ensures IsCanonical(alabel, u)
  {
    hide Split, PortField, Hostname, Ipv6, Ipv4, HostOk, HostFault, Shape, Tail, BracketsOk, EscapesOk, Safe, Decimal,
      WellEscaped, NoEscapedControl, UpperOnly, Control, Strips;
    var p := Split(u).value;
    var port := PortField(p.netloc).value;
    var host := Hostname(p.netloc);
    HostFaultIs(alabel, host);
    PassedShape(u, p);
    PortFieldRange(p.netloc);
    UpperIsOk(u);
    var at := |p.scheme| + 3 + |p.netloc|;
    TailOk(u, at, p);
    AsciiLength(u);
    var id := Identity(p.scheme, host, port, p.path, if '?' in u[at..] then Some(p.query) else None);
    AuthorityIs(alabel, host, port);
    assert Good(alabel, id);
    assert u == Render(id) by { RenderIs(id, u, p.netloc, u[at..]); }
  }

  lemma PortFieldRange(netloc: string)
    requires PortField(netloc).Ok?
    ensures var port := PortField(netloc).value; port.Some? ==> port.value <= 65535
  {
    hide HostPort, Value;
  }

  lemma AuthorityIs(alabel: string -> bool, host: string, port: Option<nat>)
    requires HostOk(alabel, host)
    ensures (if Ipv6(host) then "[" + host + "]" else host) + PortSuffix(port) == Authority(host, port)
  {
    hide HostOk, Ipv6, Decimal;
    HostChars(alabel, host);
  }

  lemma RenderIs(id: Identity, u: string, netloc: string, tail: string)
    requires netloc == Authority(id.host, id.port) && tail == id.path + QueryText(id.query)
    requires u == id.scheme + "://" + netloc + tail
    ensures u == Render(id)
  {
    hide Authority, QueryText;
  }

  /** A passed text is its scheme, its authority, and its path and query. */
  lemma PassedShape(u: string, p: Parsed)
    requires Split(u) == Ok(p) && p.scheme in ["http", "https"] && p.netloc != "" && '#' !in u
    requires p.scheme + "://" <= u
    ensures var at := |p.scheme| + 3 + |p.netloc|;
      && at <= |u| && u == p.scheme + "://" + p.netloc + u[at..] && p == Tail(p.scheme, p.netloc, u[at..])
      && u[at..] == p.path + (if '?' in u[at..] then "?" + p.query else "")
      && (p.path != "" ==> p.path[0] == '/')
  {
    hide Split, BracketsOk, SchemeName, Tail, SchemeChar, Lower;
    var name, tail := SplitInverse(u);
    var at := |name| + 3 + |p.netloc|;
    TailOfNames(Lower(name), p.netloc, tail);
    assert |name| == |p.scheme|;
    assert u[..|name|] == name && u[..|p.scheme|] == p.scheme;
    assert u[at..] == tail;
    assert '#' !in tail;
    TailInverse(p.scheme, p.netloc, tail);
    if p.path != "" {
      assert p.path[0] == tail[0];
      assert p.path[0] in p.path && tail[0] in tail;
    }
  }

  /** The validator passes every canonical text. */
  lemma CanonicalIsPassed(alabel: string -> bool, id: Identity)
    requires Good(alabel, id) && |Render(id)| <= MAX_URL_BYTES
    ensures CanonicalFault(alabel, Render(id)).None?
  {
    hide Split, PortField, Hostname, Ipv6, Ipv4, HostOk, HostFault, Shape, Tail, BracketsOk, EscapesOk, Safe, Decimal,
      WellEscaped, NoEscapedControl, UpperOnly, Authority, HostPort, UrlChar, AuthorityChar, Control, Strips, TextFault;
    var u, netloc := Render(id), Authority(id.host, id.port);
    GoodShape(alabel, id);
    RenderFaultless(alabel, id);
    AuthoritySplits(alabel, id.host, id.port);
    PortFieldGood(alabel, id.host, id.port);
    HostFaultIs(alabel, id.host);
    AuthorityIs(alabel, id.host, id.port);
    RenderBegins(id);
    EmptyChars(id.query);
  }

  lemma EmptyChars(query: Option<string>)
    ensures query.None? ==> query.GetOr("") == ""
  {
  }

  lemma RenderBegins(id: Identity)
    ensures id.scheme + "://" <= Render(id)
  {
    hide Authority, QueryText;
  }

  lemma RenderFaultless(alabel: string -> bool, id: Identity)
    requires Good(alabel, id) && |Render(id)| <= MAX_URL_BYTES
    ensures TextFault(Render(id)).None?
  {
    hide Render, HostOk, WellEscaped, NoEscapedControl, UpperOnly, UrlChar, Control, White;
    var u := Render(id);
    RenderText(alabel, id);
    RenderNonempty(id);
    OkIsUpper(u);
    forall c | c in u ensures Ascii(c) && !Control(c) && c != '\\' && !White(c) && c != '#' { UrlCharIs(c); }
    AsciiLength(u);
    assert u[0] in u && u[|u| - 1] in u;
  }

  //////////////////////////////////////////////////////////////////////////////
  // The contract verifier's validator
  //////////////////////////////////////////////////////////////////////////////

  datatype CanonicalURL = CanonicalURL(url: string, scheme: string, host: string, port: nat, explicitPort: bool,
                                       isIp: bool)

  /** Host, whether a port is written, its text, and whether the host is an address literal. */
  datatype HostPart = HostPart(host: string, explicitPort: bool, portText: string, isIp: bool)

  function ParseAuthority(alabel: string -> bool, authority: string): Option<HostPart>
    requires authority != ""
  {
    if authority[0] == '[' then
      var (host, suffix) := Cut(authority[1..], ']');
      if ']' !in authority[1..] || !Ipv6(host) then None
      else if suffix == "" then Some(HostPart(host, false, "", true))
      else if suffix[0] != ':' then None
      else Some(HostPart(host, true, suffix[1..], true))
    else
      var (host, text) := Cut(authority, ':');
      var isIp := DottedNumeric(host);
      if ':' in text then None
      else if |host| > 253 || exists p :: p in SplitOn(host, '.') && !DnsLabel(p) then None
      else if isIp && !Ipv4(host) then None
      else if !Alabels(alabel, host) then None
      else Some(HostPart(host, ':' in authority, text, isIp))
  }

  /** A decimal port without leading zeros, at most 65535. */
  predicate PortTextOk(text: string) {
    1 <= |text| <= 5 && AllDigits(text) && text[0] != '0' && Value(text) <= 65535
  }

  function Prefixed(value: string): Option<(string, string)> {
    if "http://" <= value then Some(("http", value[7..]))
    else if "https://" <= value then Some(("https", value[8..]))
    else None
  }

  /** validate_identity */
  function ValidateIdentity(alabel: string -> bool, value: string): Result<CanonicalURL> {
    if Utf8Length(value) > MAX_URL_BYTES then Err("URL_TOO_LONG")
    else if value == "" || exists c :: c in value && !(33 <= c as int <= 126 && c != '\\') then
      Err("CANONICAL_URL_NOT_CANONICAL")
    else if '#' in value then Err("URL_FRAGMENT_FORBIDDEN")
    else
      match Prefixed(value)
      case None => Err("CANONICAL_URL_NOT_CANONICAL")
      case Some((scheme, rest)) =>
        var (authority, tail) := Cut(rest, '/');
        if authority == "" || '/' !in rest || '?' in authority then Err("CANONICAL_URL_NOT_CANONICAL")
        else if '@' in authority then Err("URL_USERINFO_FORBIDDEN")
        else
          match ParseAuthority(alabel, authority)
          case None => Err("CANONICAL_URL_NOT_CANONICAL")
          case Some(h) =>
            var (path, query) := Cut("/" + tail, '?');
            if h.explicitPort && !PortTextOk(h.portText) then Err("CANONICAL_URL_NOT_CANONICAL")
            else
              var port := if h.explicitPort then Value(h.portText) else DefaultPort(scheme);
              if h.explicitPort && port == DefaultPort(scheme) then Err("URL_DEFAULT_PORT_FORBIDDEN")
              else if !ComponentOk(path, false) || ('?' in "/" + tail && !ComponentOk(query, true)) then
                Err("CANONICAL_URL_NOT_CANONICAL")
              else Ok(CanonicalURL(value, scheme, h.host, port, h.explicitPort, h.isIp))
  }

  /** The verifier's record of an identity. */
  function RecordOf(id: Identity): CanonicalURL {
    CanonicalURL(Render(id), id.scheme, id.host, id.port.GetOr(DefaultPort(id.scheme)), id.port.Some?,
                 Ipv4(id.host) || Ipv6(id.host))
  }

  /** A domain or an IPv4 literal is what the unbracketed branch lets through. */
  lemma PlainHostIs(alabel: string -> bool, host: string)
    ensures ':' !in host && HostOk(alabel, host) <==>
      |host| <= 253 && (forall p :: p in SplitOn(host, '.') ==> DnsLabel(p)) && (DottedNumeric(host) ==> Ipv4(host))
      && Alabels(alabel, host)
    ensures ':' !in host && HostOk(alabel, host) ==> (DottedNumeric(host) <==> Ipv4(host) || Ipv6(host))
  {
    hide DnsLabel, SplitOn, Octet, HostChar, HexGroups;
    if Ipv4(host) {
      Ipv4Labels(host);
    }
    if ':' in host {
      ColonLabel(host);
    }
    if HostOk(alabel, host) {
      HostChars(alabel, host);
    }
  }

  lemma ColonLabel(host: string)
    requires ':' in host
    ensures exists p :: p in SplitOn(host, '.') && !DnsLabel(p)
  {
    SplitChars(host, '.', ':');
  }

  /** An authority that parses is the canonical text of its host and port. */
  lemma AuthorityParses(alabel: string -> bool, authority: string, scheme: string)
    requires authority != "" && ParseAuthority(alabel, authority).Some?
    ensures var h := ParseAuthority(alabel, authority).value;
      && HostOk(alabel, h.host) && (h.isIp <==> Ipv4(h.host) || Ipv6(h.host))
      && (h.explicitPort && PortTextOk(h.portText) ==>
            authority == Authority(h.host, Some(Value(h.portText))) && Value(h.portText) >= 1)
      && (!h.explicitPort ==> authority == Authority(h.host, None))
  {
    hide Ipv6, Ipv4, DottedNumeric, Alabels, DnsLabel, SplitOn, Cut, Value, Decimal, HostChar, HostOk;
    var h := ParseAuthority(alabel, authority).value;
    if h.explicitPort && PortTextOk(h.portText) {
      DecimalOfValue(h.portText);
    }
    if authority[0] == '[' {
      CutInverse(authority[1..], ']');
      HostOfIpv6(alabel, h.host);
      assert authority == "[" + h.host + "]" + Cut(authority[1..], ']').1;
    } else {
      PlainHostIs(alabel, h.host);
      if ':' in authority {
        CutInverse(authority, ':');
      } else {
        CutNone(authority, ':');
      }
    }
  }

  lemma HostOfIpv6(alabel: string -> bool, host: string)
    requires Ipv6(host)
    ensures HostOk(alabel, host) && ':' in host
  {
    HostChars(alabel, host);
    hide Ipv6;
  }

  /** A canonical authority parses to its host and port. */
  lemma AuthorityIsParsed(alabel: string -> bool, host: string, port: Option<nat>)
    requires HostOk(alabel, host) && (port.Some? ==> 1 <= port.value <= 65535)
    ensures var t := Authority(host, port);
      && t != "" && ParseAuthority(alabel, t) ==
                    Some(HostPart(host, port.Some?, PortText(port), Ipv4(host) || Ipv6(host)))
      && (port.Some? ==> PortTextOk(PortText(port)) && Value(PortText(port)) == port.value)
  {
    hide Ipv6, Ipv4, DottedNumeric, Alabels, DnsLabel, SplitOn, Cut, HostOk, HostChar;
    HostChars(alabel, host);
    HostPlain(host);
    SuffixSplits(port);
    var t, p := Authority(host, port), PortSuffix(port);
    if port.Some? { PortTextGood(port.value); }
    hide Value, Decimal;
    if ':' in host {
      assert t == "[" + host + "]" + p;
      assert t[|host| + 1] == ']' && t[1..][|host|] == ']';
      BracketInside(host, p);
      if port.Some? { assert p[1..] == Decimal(port.value); }
    } else {
      assert t == host + p;
      PlainHostIs(alabel, host);
      NotBracket(host, p);
      PlainCut(host, port);
      PortDigits(port);
      if port.Some? { assert t[|host|] == ':'; } else { assert t == host; }
    }
  }

  lemma PortDigits(port: Option<nat>)
    ensures ':' !in PortText(port)
  {
    if port.Some? { assert AllDigits(Decimal(port.value)); hide Decimal; }
  }

  lemma PortTextGood(port: nat)
    requires 1 <= port <= 65535
    ensures PortTextOk(Decimal(port)) && Value(Decimal(port)) == port
  {
    DecimalShort(port);
    ValueOfDecimal(port);
    hide Decimal, Value;
  }

  lemma PrefixedIs(scheme: string, rest: string)
    requires scheme in ["http", "https"]
    ensures Prefixed(scheme + "://" + rest) == Some((scheme, rest))
  {
    var v := scheme + "://" + rest;
    if scheme == "http" {
      assert v[..7] == "http://" && v[7..] == rest;
    } else {
      assert v[4] == 's' && v[..8] == "https://" && v[8..] == rest;
    }
  }

  lemma PrefixedInverse(value: string)
    requires Prefixed(value).Some?
    ensures var (scheme, rest) := Prefixed(value).value;
      scheme in ["http", "https"] && value == scheme + "://" + rest
  {
  }

  /** validate_identity accepts exactly the canonical texts, and reports their parts. */
  lemma IdentityIsCanonical(alabel: string -> bool, u: string)
    requires ValidateIdentity(alabel, u).Ok?
    ensures IsCanonical(alabel, u)
    ensures exists id :: Good(alabel, id) && u == Render(id) && ValidateIdentity(alabel, u).value == RecordOf(id)
  {
    hide ParseAuthority, PortTextOk, ComponentOk, Cut, HostOk, Ipv4, Ipv6, Authority, Value, Prefixed, Safe;
    PrefixedInverse(u);
    var (scheme, rest) := Prefixed(u).value;
    var (authority, tail) := Cut(rest, '/');
    CutInverse(rest, '/');
    AuthorityParses(alabel, authority, scheme);
    var h := ParseAuthority(alabel, authority).value;
    if h.explicitPort { PortTextRange(h.portText); }
    var (path, query) := Cut("/" + tail, '?');
    var marked := '?' in "/" + tail;
    var port := if h.explicitPort then Some(Value(h.portText)) else None;
    var id := Identity(scheme, h.host, port, path, if marked then Some(query) else None);
    SlashTail(tail);
    assert u == scheme + "://" + authority + ("/" + tail);
    RenderIs(id, u, authority, "/" + tail);
    assert Good(alabel, id);
    AsciiText(u);
    assert ValidateIdentity(alabel, u).value == RecordOf(id);
  }

  lemma PortTextRange(text: string)
    requires PortTextOk(text)
    ensures AllDigits(text) && Value(text) <= 65535
  {
  }

  lemma SlashTail(tail: string)
    ensures var (path, query) := Cut("/" + tail, '?');
      && path != "" && path[0] == '/'
      && "/" + tail == path + (if '?' in "/" + tail then "?" + query else "")
  {
    hide Cut;
    CutFirst("/" + tail, '?');
    CutWhole("/" + tail, '?');
  }

  lemma CutWhole(s: string, c: char)
    ensures s == Cut(s, c).0 + (if c in s then [c] + Cut(s, c).1 else "")
  {
    hide Cut;
    if c in s {
      CutInverse(s, c);
    } else {
      CutNone(s, c);
    }
  }

  lemma CutFirst(s: string, c: char)
    requires s != "" && s[0] != c
    ensures Cut(s, c).0 != "" && Cut(s, c).0[0] == s[0]
  {
    hide Until;
  }

  lemma AsciiText(u: string)
    requires forall c :: c in u ==> 33 <= c as int <= 126
    ensures Utf8Length(u) == |u|
  {
    AsciiLength(u);
  }

  lemma CanonicalIsIdentity(alabel: string -> bool, id: Identity)
    requires Good(alabel, id) && |Render(id)| <= MAX_URL_BYTES
    ensures ValidateIdentity(alabel, Render(id)) == Ok(RecordOf(id))
  {
    hide ParseAuthority, PortTextOk, ComponentOk, Cut, HostOk, Ipv4, Ipv6, Authority, Value, Prefixed, Safe,
      HostPort, Hostname, BracketsOk, AuthorityChar, PortText, Decimal, Render, QueryText, EscapesOk;
    var u, authority, whole := Render(id), Authority(id.host, id.port), id.path + QueryText(id.query);
    RenderText(alabel, id);
    RenderNonempty(id);
    forall c | c in u ensures 33 <= c as int <= 126 && c != '\\' && c != '#' { assert UrlChar(c); }
    AsciiText(u);
    AuthorityIsParsed(alabel, id.host, id.port);
    RestOfRender(alabel, id);
    PathAndQuery(alabel, id);
  }

  /** Where the authority of a canonical text ends, and its path begins. */
  lemma RestOfRender(alabel: string -> bool, id: Identity)
    requires Good(alabel, id)
    ensures var authority, whole := Authority(id.host, id.port), id.path + QueryText(id.query);
      && whole != "" && whole[0] == '/'
      && Prefixed(Render(id)) == Some((id.scheme, authority + whole))
      && Cut(authority + whole, '/') == (authority, whole[1..]) && '/' in authority + whole
      && '?' !in authority && '@' !in authority && authority != ""
      && "/" + whole[1..] == whole
  {
    hide HostOk, ComponentOk, Cut, Authority, HostPort, Hostname, BracketsOk, AuthorityChar, QueryText, Prefixed;
    var authority, whole := Authority(id.host, id.port), id.path + QueryText(id.query);
    AuthoritySplits(alabel, id.host, id.port);
    forall c | c in authority ensures c !in "/?#@%" { AuthorityUrlChar(c); }
    PrefixedIs(id.scheme, authority + whole);
    assert id.scheme + "://" + authority + whole == id.scheme + "://" + (authority + whole);
    CutAt(authority, '/', whole[1..]);
    assert authority + ['/'] + whole[1..] == authority + whole;
    assert (authority + whole)[|authority|] == '/';
  }

  lemma PathAndQuery(alabel: string -> bool, id: Identity)
    requires Good(alabel, id)
    ensures var whole := id.path + QueryText(id.query);
      Cut(whole, '?') == (id.path, id.query.GetOr("")) && ('?' in whole <==> id.query.Some?)
  {
    hide HostOk, ComponentOk;
    ComponentChars(id.path, false);
    if id.query.Some? { ComponentChars(id.query.value, true); }
    TailRender("", "", id.path, id.query);
    CutNone(id.path + QueryText(id.query), '#');
    hide Cut;
  }

  //////////////////////////////////////////////////////////////////////////////
  // Agreement
  //////////////////////////////////////////////////////////////////////////////

  /** The three implementations accept the same texts. */
  lemma ThreeAgree(alabel: string -> bool, u: string)
    ensures Canonicalize(alabel, u) == Ok(u) <==> CanonicalFault(alabel, u).None?
    ensures CanonicalFault(alabel, u).None? <==> ValidateIdentity(alabel, u).Ok?
  {
    hide Canonicalize, CanonicalFault, ValidateIdentity, Good, Render;
    FixedIsCanonical(alabel, u);
    if CanonicalFault(alabel, u).None? { PassedIsCanonical(alabel, u); }
    if ValidateIdentity(alabel, u).Ok? { IdentityIsCanonical(alabel, u); }
    if IsCanonical(alabel, u) {
      var id :| Good(alabel, id) && u == Render(id);
      CanonicalIsPassed(alabel, id);
      CanonicalIsIdentity(alabel, id);
    }
  }

  /** Both validators pass whatever the canonicalizer returns, on any raw text. */
  lemma ResultsPass(alabel: string -> bool, raw: string, u: string)
    ensures Canonicalize(alabel, raw) == Ok(u) ==> CanonicalFault(alabel, u).None? && ValidateIdentity(alabel, u).Ok?
  {
    hide *;
    CanonicalizeIdempotent(alabel, raw, u);
    ThreeAgree(alabel, u);
  }

  /** Different identities have different texts, so the text of a URL can stand for its parts. */
  lemma RenderInjective(alabel: string -> bool, a: Identity, b: Identity)
    requires Good(alabel, a) && Good(alabel, b) && Render(a) == Render(b)
    ensures a == b
  {
    hide HostOk, ComponentOk, Authority, HostPort, Hostname, BracketsOk, AuthorityChar, Split, Shape, Render, Decimal,
      PortField;
    GoodShape(alabel, a);
    GoodShape(alabel, b);
    AuthoritySplits(alabel, a.host, a.port);
    AuthoritySplits(alabel, b.host, b.port);
    PortFieldGood(alabel, a.host, a.port);
    PortFieldGood(alabel, b.host, b.port);
    RestOfRender(alabel, a);
    RestOfRender(alabel, b);
    PathAndQuery(alabel, a);
    PathAndQuery(alabel, b);
  }
}
