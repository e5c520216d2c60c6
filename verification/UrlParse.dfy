/** Splitting a URL (RFC 3986 section 3 and appendix B), and the canonical text of its parts. */
module UrlParse {
  import opened Outcomes
  import opened Texts
  import opened UrlHosts
  import opened UrlComponents

  datatype Parsed = Parsed(scheme: string, netloc: string, path: string, query: string, fragment: string)

  predicate SchemeChar(c: char) { Alnum(c) || c in "+-." }

  /** The scheme in lower case, empty when there is none, and the rest. */
  function SchemeOf(u: string): (string, string) {
    var i := Until(u, {':'});
    if 0 < i < |u| && (Upper(u[0]) || LowerLetter(u[0])) && (forall c :: c in u[..i] ==> SchemeChar(c)) then
      (Lower(u[..i]), u[i + 1..])
    else ("", u)
  }

  /** The part before the first c and the part after it. */
  function Cut(s: string, c: char): (r: (string, string)) {
    var n := Until(s, {c});
    (s[..n], if n < |s| then s[n + 1..] else "")
  }

  predicate IpFuture(h: string) {
    var n := Until(h, {'.'});
    2 <= n && n + 1 < |h| && h[0] == 'v' && forall c :: c in h[1..n] ==> Hex(c)
  }

  /** What may stand between brackets.  Zone identifiers are refused here; every caller refuses them anyway. */
  predicate LiteralOk(h: string) {
    if h != "" && h[0] == 'v' then IpFuture(h) else '%' !in h && Ipv6(Lower(h))
  }

  predicate BracketsOk(netloc: string) {
    if '[' !in netloc && ']' !in netloc then true
    else if '[' !in netloc || ']' !in netloc then false
    else
      var info := AfterLast(netloc, '@');
      var open := Until(info, {'['});
      if open == |info| then LiteralOk(Cut(info, ':').0)
      else
        var inside := Cut(info[open + 1..], ']');
        open == 0 && LiteralOk(inside.0) && (inside.1 == "" || inside.1[0] == ':')
  }

  function Tail(scheme: string, netloc: string, s: string): Parsed {
    var (body, fragment) := Cut(s, '#');
    var (path, query) := Cut(body, '?');
    Parsed(scheme, netloc, path, query, fragment)
  }

  /** urlsplit */
  function Split(u: string): Result<Parsed> {
    var (scheme, rest) := SchemeOf(u);
    if !("//" <= rest) then Ok(Tail(scheme, "", rest))
    else
      var n := Until(rest[2..], {'/', '?', '#'});
      var netloc := rest[2..][..n];
      if !BracketsOk(netloc) then Err("ValueError") else Ok(Tail(scheme, netloc, rest[2..][n..]))
  }

  /** The host and the port text of an authority. */
  function HostPort(netloc: string): (string, string) {
    var info := AfterLast(netloc, '@');
    var open := Until(info, {'['});
    if open < |info| then
      var inside := Cut(info[open + 1..], ']');
      (inside.0, Cut(inside.1, ':').1)
    else Cut(info, ':')
  }

  /** SplitResult.hostname: lower case, except for a zone. */
  function Hostname(netloc: string): string {
    var host := HostPort(netloc).0;
    var n := Until(host, {'%'});
    Lower(host[..n]) + host[n..]
  }

  /** SplitResult.port */
  function PortField(netloc: string): Result<Option<nat>> {
    var text := HostPort(netloc).1;
    if text == "" then Ok(None)
    else if !AllDigits(text) || Value(text) > 65535 then Err("ValueError")
    else Ok(Some(Value(text)))
  }

  //////////////////////////////////////////////////////////////////////////////
  // Canonical text
  //////////////////////////////////////////////////////////////////////////////

  datatype Identity = Identity(scheme: string, host: string, port: Option<nat>, path: string, query: Option<string>)

  function DefaultPort(scheme: string): nat { if scheme == "http" then 80 else 443 }

  function Authority(host: string, port: Option<nat>): string {
    (if ':' in host then "[" + host + "]" else host) + (if port.Some? then ":" + Decimal(port.value) else "")
  }

  function QueryText(query: Option<string>): string {
    if query.Some? then "?" + query.value else ""
  }

  function Render(id: Identity): string {
    id.scheme + "://" + Authority(id.host, id.port) + (id.path + QueryText(id.query))
  }

  predicate PortOk(port: Option<nat>, scheme: string) {
    port.Some? ==> 1 <= port.value <= 65535 && port.value != DefaultPort(scheme)
  }

  /** The canonical identities. */
  predicate Good(alabel: string -> bool, id: Identity) {
    && id.scheme in ["http", "https"]
    && HostOk(alabel, id.host)
    && PortOk(id.port, id.scheme)
    && id.path != "" && id.path[0] == '/' && ComponentOk(id.path, false)
    && (id.query.Some? ==> ComponentOk(id.query.value, true))
  }

  //////////////////////////////////////////////////////////////////////////////
  // Splitting canonical text
  //////////////////////////////////////////////////////////////////////////////

  lemma UntilIs(s: string, stops: set<char>, n: nat)
    requires n <= |s| && (forall i :: 0 <= i < n ==> s[i] !in stops) && (n < |s| ==> s[n] in stops)
    ensures Until(s, stops) == n
  {
    hide Until;
  }

  lemma CutNone(s: string, c: char)
    requires c !in s
    ensures Cut(s, c) == (s, "")
  {
    UntilIs(s, {c}, |s|);
    assert s[..|s|] == s;
  }

  lemma CutAt(a: string, c: char, b: string)
    requires c !in a
    ensures Cut(a + [c] + b, c) == (a, b)
  {
    var s := a + [c] + b;
    UntilIs(s, {c}, |a|);
    assert s[..|a|] == a && s[|a| + 1..] == b;
  }

  predicate AuthorityChar(c: char) { HostChar(c) || c in "[]" }

  function PortText(port: Option<nat>): string {
    if port.Some? then Decimal(port.value) else ""
  }

  /** The port with its colon. */
  function PortSuffix(port: Option<nat>): string {
    if port.Some? then ":" + Decimal(port.value) else ""
  }

  lemma SuffixSplits(port: Option<nat>)
    ensures var p := PortSuffix(port);
      && (forall c :: c in p ==> Digit(c) || c == ':')
      && (p == "" || p[0] == ':') && Cut(p, ':') == ("", PortText(port))
  {
    if port.Some? {
      var d := Decimal(port.value);
      assert AllDigits(d);
      CutAt("", ':', d);
      assert "" + ":" + d == ":" + d;
    } else {
      CutNone("", ':');
    }
  }

  /** An authority that opens with a bracket. */
  lemma BracketShape(t: string, host: string, p: string)
    requires '@' !in t && t != "" && t[0] == '[' && ']' in t && Cut(t[1..], ']') == (host, p)
    ensures HostPort(t) == (host, Cut(p, ':').1)
    ensures BracketsOk(t) <==> LiteralOk(host) && (p == "" || p[0] == ':')
  {
    hide LiteralOk, Cut, AfterLast, Until;
    AfterLastSplits(t, '@');
    UntilIs(t, {'['}, 0);
  }

  lemma BracketHostPort(host: string, p: string)
    requires '@' !in host && ']' !in host && LiteralOk(host)
    requires '@' !in p && (p == "" || p[0] == ':')
    ensures var t := "[" + host + "]" + p;
      HostPort(t) == (host, Cut(p, ':').1) && BracketsOk(t)
  {
    hide LiteralOk, Cut, HostPort, BracketsOk;
    BracketText(host, p);
    BracketInside(host, p);
    BracketShape("[" + host + "]" + p, host, p);
  }

  lemma BracketText(host: string, p: string)
    requires '@' !in host && '@' !in p
    ensures var t := "[" + host + "]" + p;
      '@' !in t && t != "" && t[0] == '[' && ']' in t
  {
    var t := "[" + host + "]" + p;
    assert t[|host| + 1] == ']';
    forall c | c in t ensures c != '@' { assert c == '[' || c == ']' || c in host || c in p; }
  }

  lemma BracketInside(host: string, p: string)
    requires ']' !in host
    ensures Cut(("[" + host + "]" + p)[1..], ']') == (host, p)
  {
    hide Cut;
    assert ("[" + host + "]" + p)[1..] == host + [']'] + p;
    CutAt(host, ']', p);
  }

  lemma PlainHostPort(t: string)
    requires '@' !in t && '[' !in t && ']' !in t
    ensures HostPort(t) == Cut(t, ':') && BracketsOk(t)
  {
    hide LiteralOk, Cut, AfterLast, Until;
    AfterLastSplits(t, '@');
    UntilIs(t, {'['}, |t|);
  }

  lemma PlainCut(host: string, port: Option<nat>)
    requires ':' !in host
    ensures Cut(host + PortSuffix(port), ':') == (host, PortText(port))
  {
    hide Cut, Decimal;
    if port.Some? {
      CutAt(host, ':', Decimal(port.value));
      assert host + ":" + Decimal(port.value) == host + PortSuffix(port);
    } else {
      CutNone(host, ':');
      assert host + "" == host;
    }
  }

  lemma HostCharPlain(c: char)
    requires HostChar(c)
    ensures c !in "@[]%/?#" && AuthorityChar(c)
  {
  }

  lemma HostPlain(host: string)
    requires forall c :: c in host ==> HostChar(c)
    ensures '@' !in host && '[' !in host && ']' !in host && '%' !in host
    ensures host != "" ==> host[0] != 'v' || ':' !in host || !Ipv6(host)
  {
    forall c | c in host ensures c !in "@[]%" { HostCharPlain(c); }
    if host != "" && Ipv6(host) {
      Ipv6Chars(host, host[0]);
    }
    hide HostChar, Ipv6;
  }

  /** The text of an authority has no delimiter, and splits into its host and port. */
  lemma AuthoritySplits(alabel: string -> bool, host: string, port: Option<nat>)
    requires HostOk(alabel, host)
    ensures var t := Authority(host, port);
      && t != "" && (forall c :: c in t ==> AuthorityChar(c))
      && HostPort(t) == (host, PortText(port)) && BracketsOk(t)
      && Hostname(t) == host
  {
    hide HostOk, Ipv6, Decimal, Lower, HostPort, BracketsOk, PortText, HostChar, AuthorityChar, Cut;
    HostChars(alabel, host);
    HostPlain(host);
    SuffixSplits(port);
    AuthorityChars(host, port);
    var t, p := Authority(host, port), PortSuffix(port);
    if ':' in host {
      assert t == "[" + host + "]" + p;
      BracketHostPort(host, p);
    } else {
      assert t == host + p;
      AuthorityPlain(host, p);
      PlainHostPort(t);
      PlainCut(host, port);
    }
    NoZone(host);
  }

  lemma AuthorityPlain(host: string, p: string)
    requires '@' !in host && '[' !in host && ']' !in host
    requires forall c :: c in p ==> Digit(c) || c == ':'
    ensures '@' !in host + p && '[' !in host + p && ']' !in host + p
  {
  }

  lemma NoZone(host: string)
    requires '%' !in host
    ensures Until(host, {'%'}) == |host| && host[..|host|] == host && host[|host|..] == ""
    ensures host + "" == host
  {
    UntilIs(host, {'%'}, |host|);
  }

  lemma AuthorityChars(host: string, port: Option<nat>)
    requires forall c :: c in host ==> HostChar(c)
    ensures forall c :: c in Authority(host, port) ==> AuthorityChar(c)
  {
    SuffixSplits(port);
    hide HostChar, Decimal, Cut;
    forall c | c in Authority(host, port) ensures AuthorityChar(c) {
      assert c == '[' || c == ']' || c in host || c in PortSuffix(port);
      DigitHost(c);
    }
  }

  lemma DigitHost(c: char)
    ensures Digit(c) || c == ':' ==> HostChar(c)
  {
  }

  //////////////////////////////////////////////////////////////////////////////
  // What a successful split says about the text
  //////////////////////////////////////////////////////////////////////////////

  /** u is a scheme, "://", an authority without '/', '?' or '#', and a tail. */
  ghost predicate Shape(u: string, name: string, netloc: string, tail: string) {
    && u == name + "://" + netloc + tail
    && name != "" && (forall c :: c in name ==> SchemeChar(c))
    && (forall c :: c in netloc ==> c !in {'/', '?', '#'})
    && (tail == "" || tail[0] in {'/', '?', '#'})
  }

  predicate SchemeName(name: string) {
    name != "" && (Upper(name[0]) || LowerLetter(name[0])) && forall c :: c in name ==> SchemeChar(c)
  }

  lemma SchemeOfName(name: string, rest: string)
    requires SchemeName(name)
    ensures SchemeOf(name + ":" + rest) == (Lower(name), rest)
  {
    hide Until, Lower;
    var u := name + ":" + rest;
    assert ':' !in name by {
      forall c | c in name ensures c != ':' { assert SchemeChar(c); }
    }
    UntilIs(u, {':'}, |name|);
    assert u[..|name|] == name && u[|name| + 1..] == rest;
  }

  lemma SchemeInverse(u: string)
    requires SchemeOf(u).0 != ""
    ensures var n := Until(u, {':'});
      SchemeName(u[..n]) && u == u[..n] + ":" + SchemeOf(u).1 && SchemeOf(u).0 == Lower(u[..n])
  {
    hide Until, Lower;
  }

  /** Splitting a text of the right shape. */
  lemma SplitShape(u: string, name: string, netloc: string, tail: string)
    requires Shape(u, name, netloc, tail) && SchemeName(name) && BracketsOk(netloc)
    ensures Split(u) == Ok(Tail(Lower(name), netloc, tail))
  {
    hide Until, Lower, BracketsOk, SchemeOf, Tail;
    var rest := "//" + netloc + tail;
    assert u == name + ":" + rest;
    SchemeOfName(name, rest);
    assert rest[2..] == netloc + tail;
    forall i | 0 <= i < |netloc| ensures (netloc + tail)[i] !in {'/', '?', '#'} { assert netloc[i] in netloc; }
    UntilIs(netloc + tail, {'/', '?', '#'}, |netloc|);
    assert (netloc + tail)[..|netloc|] == netloc && (netloc + tail)[|netloc|..] == tail;
  }

  lemma TailNames(scheme: string, netloc: string, s: string)
    ensures Tail(scheme, netloc, s).scheme == scheme && Tail(scheme, netloc, s).netloc == netloc
  {
    hide Cut;
  }

  /** A successful split with a scheme and an authority comes from a text of that shape. */
  lemma SplitInverse(u: string) returns (name: string, tail: string)
    requires Split(u).Ok? && Split(u).value.scheme != "" && Split(u).value.netloc != ""
    ensures var p := Split(u).value;
      Shape(u, name, p.netloc, tail) && SchemeName(name) && BracketsOk(p.netloc)
      && p == Tail(Lower(name), p.netloc, tail)
  {
    hide Until, Lower, BracketsOk, SchemeOf, Tail, SchemeChar;
    var scheme, rest := SchemeOf(u).0, SchemeOf(u).1;
    TailNames(scheme, "", rest);
    assert "//" <= rest;
    var n := Until(rest[2..], {'/', '?', '#'});
    var netloc := rest[2..][..n];
    tail := rest[2..][n..];
    TailNames(scheme, netloc, tail);
    SchemeInverse(u);
    name := u[..Until(u, {':'})];
    assert rest == "//" + netloc + tail;
    assert u == name + "://" + netloc + tail;
  }

  /** A tail without a fragment is its path and its query. */
  lemma TailInverse(scheme: string, netloc: string, tail: string)
    requires '#' !in tail
    ensures var p := Tail(scheme, netloc, tail);
      && p.fragment == "" && '?' !in p.path
      && tail == p.path + (if '?' in tail then "?" + p.query else "")
      && ('?' !in tail ==> p.query == "")
  {
    CutNone(tail, '#');
    if '?' in tail {
      CutInverse(tail, '?');
    } else {
      CutNone(tail, '?');
      assert tail + "" == tail;
    }
    hide Cut;
  }

  lemma CutInverse(s: string, c: char)
    requires c in s
    ensures c !in Cut(s, c).0 && s == Cut(s, c).0 + [c] + Cut(s, c).1
  {
    hide Until;
  }

  lemma TailRender(scheme: string, netloc: string, path: string, query: Option<string>)
    requires '?' !in path && '#' !in path && (query.Some? ==> '#' !in query.value)
    ensures Tail(scheme, netloc, path + QueryText(query)) == Parsed(scheme, netloc, path, query.GetOr(""), "")
    ensures '?' in path + QueryText(query) <==> query.Some?
  {
    var t := path + QueryText(query);
    assert '#' !in t;
    CutNone(t, '#');
    if query.Some? {
      CutAt(path, '?', query.value);
      assert path + ['?'] + query.value == t;
      assert t[|path|] == '?';
    } else {
      assert t == path;
      CutNone(path, '?');
    }
    hide Cut;
  }

  lemma ComponentChars(s: string, query: bool)
    requires ComponentOk(s, query)
    ensures '#' !in s && (!query ==> '?' !in s)
    ensures forall c :: c in s ==> UrlChar(c)
  {
    hide EscapesOk;
    forall c | c in s ensures c != '#' && (c == '?' ==> query) && UrlChar(c) {
      SafeChar(c, query);
    }
    hide Safe, UrlChar;
  }

  /** Printable ASCII other than space, '\\' and '#'. */
  predicate UrlChar(c: char) { 33 <= c as int <= 126 && c != '\\' && c != '#' }

  lemma SafeChar(c: char, query: bool)
    requires c == '%' || Safe(c, query)
    ensures UrlChar(c) && c != '#' && (c == '?' ==> query)
  {
  }

  lemma AuthorityUrlChar(c: char)
    requires AuthorityChar(c)
    ensures UrlChar(c) && c !in "/?#@%"
  {
  }

  lemma GoodShape(alabel: string -> bool, id: Identity)
    requires Good(alabel, id)
    ensures var netloc, tail := Authority(id.host, id.port), id.path + QueryText(id.query);
      && Shape(Render(id), id.scheme, netloc, tail) && SchemeName(id.scheme) && Lower(id.scheme) == id.scheme
      && netloc != "" && '@' !in netloc && BracketsOk(netloc)
      && Split(Render(id)) == Ok(Parsed(id.scheme, netloc, id.path, id.query.GetOr(""), ""))
      && ('?' in tail <==> id.query.Some?)
  {
    hide HostOk, ComponentOk, Split, BracketsOk, Authority, Tail, HostPort, Hostname, AuthorityChar;
    var netloc, tail := Authority(id.host, id.port), id.path + QueryText(id.query);
    AuthoritySplits(alabel, id.host, id.port);
    forall c | c in netloc ensures c !in {'/', '?', '#', '@'} { AuthorityUrlChar(c); }
    assert tail[0] == '/';
    SchemeLower(id.scheme);
    SplitShape(Render(id), id.scheme, netloc, tail);
    ComponentChars(id.path, false);
    if id.query.Some? { ComponentChars(id.query.value, true); }
    TailRender(id.scheme, netloc, id.path, id.query);
  }

  lemma SchemeLower(scheme: string)
    requires scheme in ["http", "https"]
    ensures SchemeName(scheme) && Lower(scheme) == scheme
    ensures forall c :: c in scheme ==> UrlChar(c) && c != '%'
  {
    LowerFixed(scheme);
  }
}
