/** Which scores, origins and discoveries are accepted, stated by numbers and by equalities. */
module PolicyRules {
  import opened Outcomes
  import opened Texts
  import opened UrlHosts
  import opened UrlParse
  import opened Outputs
  import opened Policies
  import UrlCanonical
  import UrlValidators

  //////////////////////////////////////////////////////////////////////////////
  // Scores
  //////////////////////////////////////////////////////////////////////////////

  function Pow10(k: nat): (p: nat)
    ensures p > 0
  {
    if k == 0 then 1 else 10 * Pow10(k - 1)
  }

  /** The last k digits of q. */
  function Padded(q: nat, k: nat): (s: string)
    ensures |s| == k && AllDigits(s)
  {
    if k == 0 then "" else Padded(q / 10, k - 1) + [('0' as int + q % 10) as char]
  }

  /** The same without the zeros at its end. */
  function Trimmed(q: nat, k: nat): (s: string)
    ensures |s| <= k && AllDigits(s)
  {
    if k == 0 then "" else if q % 10 == 0 then Trimmed(q / 10, k - 1) else Padded(q, k)
  }

  /** A whole part w and digits f behind the point. */
  function Unsigned(w: string, f: string): string { w + (if f == "" then "" else "." + f) }

  /** The shortest decimal text of a millionths. */
  function Shortest(a: nat): string { Unsigned(Decimal(a / 1_000_000), Trimmed(a % 1_000_000, 6)) }

  function ScoreText(m: int): string {
    if m < 0 then "-" + Shortest(-m) else Shortest(m)
  }

  lemma TenTimes(a: nat, p: nat)
    ensures a * (10 * p) == 10 * (a * p) && 10 * (a * p) % 10 == 0 && 10 * (a * p) / 10 == a * p
  {
    var q := a * p;
    assert 10 * q % 10 == 0 && 10 * q / 10 == q;
  }

  lemma {:induction false} PaddedIs(s: string)
    requires AllDigits(s)
    ensures Padded(Value(s), |s|) == s && Value(s) < Pow10(|s|)
  {
    hide Value;
    if s == "" {
      ValueOfNothing();
    } else {
      ValueStep(s);
      PaddedIs(s[..|s| - 1]);
      DivideByTen(Value(s[..|s| - 1]), s[|s| - 1] as int - '0' as int);
      assert s == s[..|s| - 1] + [s[|s| - 1]];
    }
  }

  lemma {:induction false} ValueOfPadded(q: nat, k: nat)
    requires q < Pow10(k)
    ensures Value(Padded(q, k)) == q
  {
    hide Value;
    if k == 0 {
      ValueOfNothing();
    } else {
      var s := Padded(q, k);
      ValueOfPadded(q / 10, k - 1);
      ValueStep(s);
      assert s[..k - 1] == Padded(q / 10, k - 1);
    }
  }

  lemma {:induction false} ValueJoins(a: string, b: string)
    requires AllDigits(a) && AllDigits(b)
    ensures AllDigits(a + b) && Value(a + b) == Value(a) * Pow10(|b|) + Value(b)
  {
    hide Value;
    if b == "" {
      ValueOfNothing();
      assert a + b == a;
    } else {
      var front := b[..|b| - 1];
      ValueStep(b);
      ValueJoins(a, front);
      assert (a + b)[..|a + b| - 1] == a + front && (a + b)[|a + b| - 1] == b[|b| - 1];
      ValueStep(a + b);
      TenTimes(Value(a), Pow10(|b| - 1));
    }
  }

  function Zeros(n: nat): (s: string)
    ensures |s| == n && AllDigits(s)
  {
    seq(n, i => '0')
  }

  lemma {:induction false} ValueOfZeros(n: nat)
    ensures Value(Zeros(n)) == 0
  {
    hide Value;
    if n == 0 {
      ValueOfNothing();
    } else {
      ValueStep(Zeros(n));
      assert Zeros(n)[..n - 1] == Zeros(n - 1);
      ValueOfZeros(n - 1);
    }
  }

  /** The digits behind the point, and the number of millionths that they stand for. */
  lemma {:induction false} TrimmedIs(q: nat, k: nat)
    requires q < Pow10(k)
    ensures var f := Trimmed(q, k);
      (f != "" ==> f[|f| - 1] != '0') && (f == "" <==> q == 0) && Value(f) * Pow10(k - |f|) == q
  {
    hide Value;
    if k == 0 {
      ValueOfNothing();
    } else if q % 10 == 0 {
      TrimmedIs(q / 10, k - 1);
      var f := Trimmed(q / 10, k - 1);
      TenTimes(Value(f), Pow10(k - 1 - |f|));
    } else {
      ValueOfPadded(q, k);
    }
  }

  lemma {:induction false} TrimmedOf(f: string, j: nat)
    requires AllDigits(f) && (f != "" ==> f[|f| - 1] != '0')
    ensures Trimmed(Value(f) * Pow10(j), |f| + j) == f
  {
    hide Value;
    if j > 0 {
      TrimmedOf(f, j - 1);
      TenTimes(Value(f), Pow10(j - 1));
    } else if f == "" {
      ValueOfNothing();
    } else {
      PaddedIs(f);
      ValueStep(f);
      DivideByTen(Value(f[..|f| - 1]), f[|f| - 1] as int - '0' as int);
    }
  }

  lemma UnsignedParts(w: string, f: string)
    requires AllDigits(w) && AllDigits(f) && |f| <= 6
    ensures var t, n := Unsigned(w, f), Until(Unsigned(w, f), {'.'});
      && n == |w| && t[..n] == w && (n == |t| <==> f == "") && (f != "" ==> t[n + 1..] == f)
      && Millionths(t) == Value(w) * 1_000_000 + Value(f) * Pow10(6 - |f|)
  {
    hide Value;
    var t := Unsigned(w, f);
    forall i | 0 <= i < |w| ensures t[i] != '.' { assert t[i] == w[i] && w[i] in w; }
    if f == "" {
      assert t == w && t[..|w|] == w;
    } else {
      assert t[|w|] == '.' && t[..|w|] == w && t[|w| + 1..] == f;
    }
    FractionJoins(w, f);
    assert Zeros(6 - |f|) == seq(6 - |f|, i => '0');
  }

  lemma FractionJoins(w: string, f: string)
    requires AllDigits(w) && AllDigits(f) && |f| <= 6
    ensures AllDigits(w + f + Zeros(6 - |f|))
    ensures Value(w + f + Zeros(6 - |f|)) == Value(w) * 1_000_000 + Value(f) * Pow10(6 - |f|)
  {
    hide Value, Pow10;
    ValueJoins(w, f);
    ValueJoins(w + f, Zeros(6 - |f|));
    ValueOfZeros(6 - |f|);
    MillionthsSum(Value(w), Value(f), |f|);
  }

  lemma MillionthsSum(w: nat, f: nat, k: nat)
    requires k <= 6
    ensures (w * Pow10(k) + f) * Pow10(6 - k) == w * 1_000_000 + f * Pow10(6 - k)
  {
    assert Pow10(6) == 1_000_000;
    PowSum(k, 6 - k);
    assert (w * Pow10(k) + f) * Pow10(6 - k) == w * (Pow10(k) * Pow10(6 - k)) + f * Pow10(6 - k);
  }

  lemma {:induction false} PowSum(j: nat, k: nat)
    ensures Pow10(j) * Pow10(k) == Pow10(j + k)
  {
    if j > 0 {
      PowSum(j - 1, k);
      assert Pow10(j) * Pow10(k) == 10 * (Pow10(j - 1) * Pow10(k));
    }
  }

  /** The scores are the multiples of a millionth from -1,000 to 10,000, each in its shortest text. */
  lemma ScoresExactly(s: string)
    ensures ScoreOk(s) <==> exists m :: -1_000_000_000 <= m <= 10_000_000_000 && s == ScoreText(m)
  {
    hide ScoreText, ScoreOk;
    if ScoreOk(s) { var m := ScoreIs(s); }
    if m :| -1_000_000_000 <= m <= 10_000_000_000 && s == ScoreText(m) { TextPasses(m); }
  }

  /** An unsigned score that is not zero. */
  predicate Body(t: string) {
    var n := Until(t, {'.'});
    && CanonicalDecimal(t[..n]).Some?
    && (if n == |t| then t != "0"
        else var f := t[n + 1..]; 1 <= |f| <= 6 && AllDigits(f) && f[|f| - 1] != '0')
  }

  lemma SyntaxIs(s: string)
    ensures ScoreSyntax(s) <==> s == "0" || Body(if s != "" && s[0] == '-' then s[1..] else s)
  {
    hide Until, CanonicalDecimal;
  }

  lemma ScoreIs(s: string) returns (m: int)
    requires ScoreOk(s)
    ensures -1_000_000_000 <= m <= 10_000_000_000 && s == ScoreText(m)
  {
    hide Shortest, Millionths, ScoreSyntax, Body;
    SyntaxIs(s);
    if s == "0" {
      ZeroShortest();
      m := 0;
    } else if s != "" && s[0] == '-' {
      m := BodyIs(s[1..]);
      assert s == "-" + s[1..];
      m := -m;
    } else {
      m := BodyIs(s);
    }
  }

  lemma TextPasses(m: int)
    requires -1_000_000_000 <= m <= 10_000_000_000
    ensures ScoreOk(ScoreText(m))
  {
    hide Shortest, Millionths, ScoreSyntax, Body;
    SyntaxIs(ScoreText(m));
    ZeroShortest();
    if m < 0 {
      ShortestBody(-m);
      assert ("-" + Shortest(-m))[1..] == Shortest(-m);
    } else if m > 0 {
      ShortestBody(m);
    }
  }

  lemma ZeroShortest()
    ensures Shortest(0) == "0" && ScoreOk("0")
  {
    ZeroText();
    TrimmedIs(0, 6);
  }

  /** An unsigned score is the shortest text of its millionths. */
  lemma BodyIs(t: string) returns (a: nat)
    requires Body(t)
    ensures a > 0 && Millionths.requires(t) && Millionths(t) == a && t == Shortest(a) && t != ""
  {
    hide Value, Millionths, CanonicalDecimal, Decimal, Trimmed, Until;
    var n := Until(t, {'.'});
    var w := t[..n];
    var f := if n < |t| then t[n + 1..] else "";
    assert t == Unsigned(w, f);
    CanonicalValue(w);
    UnsignedParts(w, f);
    a := FractionOf(Value(w), f);
    if a == 0 {
      NoFraction(f);
      CanonicalZero(w);
    }
  }

  lemma CanonicalZero(w: string)
    requires w == Decimal(0)
    ensures w == "0"
  {
  }

  lemma FractionOf(w: nat, f: string) returns (a: nat)
    requires AllDigits(f) && |f| <= 6 && (f != "" ==> f[|f| - 1] != '0')
    ensures a == w * 1_000_000 + Value(f) * Pow10(6 - |f|)
    ensures a / 1_000_000 == w && Trimmed(a % 1_000_000, 6) == f
  {
    hide Value, Trimmed, Pow10;
    PaddedIs(f);
    TrimmedOf(f, 6 - |f|);
    FractionSmall(Value(f), |f|);
    var q := Value(f) * Pow10(6 - |f|);
    a := w * 1_000_000 + q;
    WholeAndRest(w, q);
  }

  lemma WholeAndRest(w: nat, q: nat)
    requires q < 1_000_000
    ensures (w * 1_000_000 + q) / 1_000_000 == w && (w * 1_000_000 + q) % 1_000_000 == q
  {
  }

  /** The shortest text of a number of millionths is an unsigned score. */
  lemma ShortestBody(a: nat)
    requires a > 0
    ensures var t := Shortest(a); Body(t) && Millionths.requires(t) && Millionths(t) == a && t[0] != '-' && t != "0"
  {
    hide Value, Millionths, CanonicalDecimal, Decimal, Trimmed, Until;
    var v, q := a / 1_000_000, a % 1_000_000;
    var w, f := Decimal(v), Trimmed(q, 6);
    assert Pow10(6) == 1_000_000;
    TrimmedIs(q, 6);
    DecimalIsCanonical(v);
    CanonicalValue(w);
    ValueOfDecimal(v);
    UnsignedParts(w, f);
    var t := Unsigned(w, f);
    assert t[0] == w[0] && w[0] in w;
    ZeroText();
    if f == "" {
      assert t == w;
      if w == "0" { DecimalDiffers(v, 0); }
    } else {
      assert |t| > 1;
    }
  }

  lemma CanonicalValue(w: string)
    requires CanonicalDecimal(w).Some?
    ensures AllDigits(w) && Value(w) == CanonicalDecimal(w).value && w == Decimal(Value(w))
  {
    hide Value, Decimal;
    CanonicalDecimalIs(w, CanonicalDecimal(w).value);
  }

  lemma FractionSmall(q: nat, k: nat)
    requires k <= 6 && q < Pow10(k)
    ensures q * Pow10(6 - k) < 1_000_000
  {
    assert Pow10(6) == 1_000_000;
    PowSum(k, 6 - k);
    assert q * Pow10(6 - k) < Pow10(k) * Pow10(6 - k);
  }

  lemma NoFraction(f: string)
    requires AllDigits(f) && |f| <= 6 && Value(f) * Pow10(6 - |f|) == 0 && (f != "" ==> f[|f| - 1] != '0')
    ensures f == ""
  {
    hide Value;
    if f != "" { ValueStep(f); }
  }

  //////////////////////////////////////////////////////////////////////////////
  // Origins and targets
  //////////////////////////////////////////////////////////////////////////////

  /** The origin of a canonical URL: scheme, host and port, and none for an address literal. */
  lemma OriginIs(b: Book, id: Identity)
    requires Good(b.alabel, id) && |Render(id)| <= 2048
    ensures Origin(b, Render(id)) ==
      if Ipv4(id.host) || Ipv6(id.host) then Err("URL_IP_LITERAL_FORBIDDEN")
      else Ok(id.scheme + "://" + id.host + ":" + Decimal(if id.port.Some? then id.port.value
                                                          else if id.scheme == "http" then 80 else 443))
  {
    hide UrlValidators.ValidateIdentity, Good, Render, Ipv4, Ipv6, Decimal;
    UrlValidators.CanonicalIsIdentity(b.alabel, id);
  }

  /** A URL with a name for a host. */
  ghost predicate NamedUrl(alabel: string -> bool, u: string) {
    |u| <= 2048 && exists id :: Good(alabel, id) && u == Render(id) && !Ipv4(id.host) && !Ipv6(id.host)
  }

  lemma OriginExactly(b: Book, u: string)
    ensures Origin(b, u).Ok? <==> NamedUrl(b.alabel, u)
    ensures Origin(b, u).Ok? ==> UrlValidators.ValidateIdentity(b.alabel, u).Ok?
  {
    hide UrlValidators.ValidateIdentity, Good, Render, Ipv4, Ipv6, Decimal;
    if Origin(b, u).Ok? {
      UrlValidators.IdentityIsCanonical(b.alabel, u);
    }
    if NamedUrl(b.alabel, u) {
      var id :| Good(b.alabel, id) && u == Render(id) && !Ipv4(id.host) && !Ipv6(id.host);
      OriginIs(b, id);
    }
  }

  /** A target that may be requested: a URL with a name for a host, under its own digest. */
  ghost predicate TargetOk(b: Book, t: Target) { NamedUrl(b.alabel, t.url) && t.urlId == b.hash.url(t.url) }

  lemma TargetIs(b: Book, t: Target)
    ensures CheckTarget(b, t).Ok? && Origin(b, t.url).Ok? <==> TargetOk(b, t)
  {
    hide UrlValidators.ValidateIdentity, NamedUrl, Origin;
    OriginExactly(b, t.url);
  }

  //////////////////////////////////////////////////////////////////////////////
  // Decisions and discoveries
  //////////////////////////////////////////////////////////////////////////////

  predicate GroupName(s: string) { 1 <= |s| && Utf8Length(s) <= 128 && forall c :: c in s ==> !Control(c) }

  /** A decision that can be digested. */
  ghost predicate DecisionOk(b: Book, d: Decision) {
    && d.kind in ["robots", "document", "redirect", "render_resource"]
    && d.target in b.targets && TargetOk(b, b.targets[d.target])
    && 0 <= d.depth < 0x20_0000_0000_0000 && GroupName(d.group) && Hex32(d.rateScope)
    && 1 <= d.concurrency <= 32 && 0 <= d.interval <= 3_600_000
  }

  lemma DecisionExactly(b: Book, d: Decision)
    ensures DecisionFields(b, d).Ok? <==> DecisionOk(b, d)
  {
    hide CheckTarget, Origin, TargetOk, Hex32, Utf8Length, Control, Decimal;
    if d.target in b.targets { TargetIs(b, b.targets[d.target]); }
  }

  /** The record of a decision gives every job two slots, and its group and its origin the same limits. */
  lemma DecisionLimits(b: Book, d: Decision)
    requires DecisionFields(b, d).Ok?
    ensures var f := DecisionFields(b, d).value;
      && |f| == 15 && f[9] == ("global_concurrency", "2") && f[10] == ("global_interval_ms", "0")
      && f[11].0 == "group_concurrency" && f[12].0 == "group_interval_ms"
      && f[13].0 == "origin_concurrency" && f[14].0 == "origin_interval_ms"
      && CanonicalDecimal(f[11].1) == CanonicalDecimal(f[13].1) == Some(d.concurrency)
      && CanonicalDecimal(f[12].1) == CanonicalDecimal(f[14].1) == Some(d.interval)
  {
    hide CheckTarget, Origin, Hex32, GroupIdOk, Decimal, CanonicalDecimal;
    DecimalIsCanonical(d.concurrency);
    DecimalIsCanonical(d.interval);
  }

  /** Decisions with one record agree in everything that they say. */
  lemma DecisionPins(b: Book, d: Decision, e: Decision)
    requires DecisionFields(b, d).Ok? && DecisionFields(b, d) == DecisionFields(b, e)
    ensures d.kind == e.kind && d.depth == e.depth && d.group == e.group && d.rateScope == e.rateScope
    ensures d.concurrency == e.concurrency && d.interval == e.interval
    ensures b.targets[d.target].urlId == b.targets[e.target].urlId
  {
    hide CheckTarget, Origin, Hex32, GroupIdOk, Decimal;
    var f, g := DecisionFields(b, d).value, DecisionFields(b, e).value;
    assert f[0] == g[0] && f[1] == g[1] && f[3] == g[3] && f[4] == g[4] && f[5] == g[5];
    assert f[11] == g[11] && f[12] == g[12];
    DecimalDiffers(d.depth, e.depth);
    DecimalDiffers(d.concurrency, e.concurrency);
    DecimalDiffers(d.interval, e.interval);
  }

  /** A document decision on the item's own target, in every respect that of the item and of its group. */
  ghost predicate Decided(b: Book, i: Item) {
    && i.decision in b.decisions
    && (var d := b.decisions[i.decision];
        && DecisionOk(b, d)
        && d == Decision("document", i.target, i.depth, i.group, i.rateScope, d.concurrency, d.interval)
        && i.group in b.groups && b.groups[i.group] == Group(i.rateScope, d.concurrency, d.interval))
  }

  /** Which discoveries are accepted, and what their records say. */
  lemma AcceptExactly(b: Book, i: Item)
    ensures AcceptDiscovery(b, i).Ok? <==> Decided(b, i) && ScoreOk(i.score)
    ensures AcceptDiscovery(b, i).Ok? ==>
      var r := AcceptDiscovery(b, i).value;
      && r.url == b.targets[i.target].url && r.jobId == b.hash.url(r.url) && CanonicalDecimal(r.depth) == Some(i.depth)
      && r.score == i.score && r.group == i.group && r.rateScope == i.rateScope
      && r.decision == b.hash.decision(DecisionFields(b, b.decisions[i.decision]).value)
  {
    hide CheckTarget, Origin, NamedUrl, Hex32, Utf8Length, Control, Decimal, CanonicalDecimal, ScoreOk, DecisionFields,
      DecisionOk, GroupIdOk;
    if i.decision in b.decisions {
      var d := b.decisions[i.decision];
      DecisionExactly(b, d);
      DecisionParts(b, d);
      if AcceptDiscovery(b, i).Ok? {
        TargetIs(b, b.targets[i.target]);
        DecimalIsCanonical(i.depth);
      } else if Decided(b, i) {
        TargetIs(b, b.targets[i.target]);
      }
    }
  }

  lemma DecisionParts(b: Book, d: Decision)
    ensures DecisionOk(b, d) ==>
      && d.target in b.targets && TargetOk(b, b.targets[d.target]) && Exact(d.depth) && GroupIdOk(d.group)
      && Hex32(d.rateScope)
  {
    hide TargetOk, Hex32, Utf8Length, Control;
  }

  /** A completed record adds the scope of its group and the scope of its URL's origin. */
  lemma CompletedIs(b: Book, i: Item)
    requires AcceptDiscovery(b, i).Ok?
    ensures CompleteFields(b, i).Ok?
    ensures var r := CompleteFields(b, i).value;
      && r.groupScope == b.hash.framed("mifolyo:rate:group:v2", [i.rateScope])
      && Origin(b, r.core.url).Ok?
      && r.originScope == b.hash.framed("mifolyo:rate:origin:v2", [Origin(b, r.core.url).value])
  {
    hide Bound, Origin;
    AcceptedCompletes(b, i);
  }

  //////////////////////////////////////////////////////////////////////////////
  // Staged records
  //////////////////////////////////////////////////////////////////////////////

  /** A canonical URL under its own digest. */
  ghost predicate Identified(b: Book, id: string, url: string) {
    UrlCanonical.IsCanonical(b.alabel, url) && id == b.hash.url(url)
  }

  lemma IdentifiedIs(b: Book, id: string, url: string)
    ensures Hex64(id) && UrlId(b, url) == Ok(id) <==> Identified(b, id, url)
  {
    hide UrlValidators.ValidateIdentity, UrlValidators.CanonicalFault, UrlCanonical.IsCanonical,
      UrlCanonical.Canonicalize;
    UrlValidators.ThreeAgree(b.alabel, url);
    UrlCanonical.FixedIsCanonical(b.alabel, url);
  }

  /** Which records of discoveries pass the check of their chunk. */
  lemma CompletedExactly(b: Book, r: Completed)
    ensures CompletedOk(b, r) <==>
      && Identified(b, r.core.jobId, r.core.url) && ScoreOk(r.core.score) && GroupName(r.core.group)
      && (exists depth: nat :: depth < 0x20_0000_0000_0000 && r.core.depth == Decimal(depth))
      && Hex32(r.core.rateScope) && Hex64(r.groupScope) && Hex64(r.originScope) && Hex64(r.core.decision)
  {
    hide UrlId, Identified, Hex32, Hex64, ScoreOk, Decimal, CanonicalDecimal, Utf8Length, Control;
    IdentifiedIs(b, r.core.jobId, r.core.url);
    var read := CanonicalDecimal(r.core.depth);
    if read.Some? { CanonicalDecimalIs(r.core.depth, read.value); }
    forall depth: nat | r.core.depth == Decimal(depth) ensures read == Some(depth) {
      CanonicalDecimalIs(r.core.depth, depth);
    }
  }

  lemma AliasExactly(b: Book, a: Alias)
    ensures AliasOk(b, a) <==> Identified(b, a.urlId, a.url) && a.depth < 0x20_0000_0000_0000
  {
    hide UrlId, Identified, Hex64;
    IdentifiedIs(b, a.urlId, a.url);
  }
}
