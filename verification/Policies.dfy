/** Targets, policy decisions, and the records of the jobs that they bind. */
module Policies {
  import opened Outcomes
  import opened Texts
  import opened Ordering
  import opened Outputs
  import UrlValidators

  const MAX_GROUP_ID_BYTES: nat := 128

  /** A SHA-256 digest in hexadecimal. */
  type Digest = s: string | Hex64(s) witness seq(64, i => '0')

  /** The digests taken of a URL, of framed values under a domain, and of a decision's fields. */
  datatype Hashing = Hashing(url: string -> Digest, framed: (string, seq<string>) -> Digest,
                             decision: seq<(string, string)> -> Digest)

  datatype Decision = Decision(kind: string, target: string, depth: int, group: string, rateScope: string,
                               concurrency: int, interval: int)

  datatype Group = Group(rateScope: string, concurrency: int, interval: int)

  /** A source job or a discovery, as given. */
  datatype Item = Item(target: string, decision: string, depth: int, group: string, rateScope: string, score: string)

  /** Everything that is looked up by name; alabel is the A-label test. */
  datatype Book = Book(alabel: string -> bool, hash: Hashing, targets: map<string, Target>,
                       decisions: map<string, Decision>, groups: map<string, Group>)

  //////////////////////////////////////////////////////////////////////////////
  // Single fields
  //////////////////////////////////////////////////////////////////////////////

  predicate Exact(n: int) { 0 <= n <= MAX_EXACT_INTEGER }

  predicate GroupIdOk(s: string) {
    s != "" && Utf8Length(s) <= MAX_GROUP_ID_BYTES && forall c :: c in s ==> !Control(c)
  }

  /** A whole part without leading zeros; then at most six decimals, the last not zero; zero is "0" only. */
  predicate ScoreSyntax(s: string) {
    s == "0"
    || (var t := if s != "" && s[0] == '-' then s[1..] else s;
        var n := Until(t, {'.'});
        && CanonicalDecimal(t[..n]).Some?
        && (if n == |t| then t != "0"
            else var f := t[n + 1..]; 1 <= |f| <= 6 && AllDigits(f) && f[|f| - 1] != '0'))
  }

  /** The absolute value in millionths. */
  function Millionths(t: string): nat
    requires var n := Until(t, {'.'}); AllDigits(t[..n]) && (n < |t| ==> AllDigits(t[n + 1..]) && |t| - n <= 7)
  {
    var n := Until(t, {'.'});
    var f := if n < |t| then t[n + 1..] else "";
    Value(t[..n] + f + seq(6 - |f|, i => '0'))
  }

  predicate ScoreOk(s: string) {
    && ScoreSyntax(s)
    && (s == "0" || if s[0] == '-' then Millionths(s[1..]) <= 1_000_000_000 else Millionths(s) <= 10_000_000_000)
  }

  //////////////////////////////////////////////////////////////////////////////
  // Targets and origins
  //////////////////////////////////////////////////////////////////////////////

  function UrlId(b: Book, url: string): Result<Digest> {
    match UrlValidators.ValidateIdentity(b.alabel, url)
    case Err(code) => Err(code)
    case Ok(_) => Ok(b.hash.url(url))
  }

  /** validate_target */
  function CheckTarget(b: Book, t: Target): Result<()> {
    if !Hex64(t.urlId) then Err("INVALID_URL_ID")
    else
      match UrlId(b, t.url)
      case Err(code) => Err(code)
      case Ok(id) => if id != t.urlId then Err("URL_IDENTITY_MISMATCH") else Ok(())
  }

  /** canonical_origin_v1: an address literal has no request origin. */
  function Origin(b: Book, url: string): Result<string> {
    match UrlValidators.ValidateIdentity(b.alabel, url)
    case Err(code) => Err(code)
    case Ok(u) =>
      if u.isIp then Err("URL_IP_LITERAL_FORBIDDEN") else Ok(u.scheme + "://" + u.host + ":" + Decimal(u.port))
  }

  function GroupScope(b: Book, rateScope: string): Result<Digest> {
    if !Hex32(rateScope) then Err("INVALID_RATE_SCOPE_ID") else Ok(b.hash.framed("mifolyo:rate:group:v2", [rateScope]))
  }

  function OriginScope(b: Book, url: string): Result<Digest> {
    match Origin(b, url)
    case Err(code) => Err(code)
    case Ok(origin) => Ok(b.hash.framed("mifolyo:rate:origin:v2", [origin]))
  }

  function TargetDigest(b: Book, t: Target): Result<Digest> {
    match CheckTarget(b, t)
    case Err(code) => Err(code)
    case Ok(_) => Ok(b.hash.framed("mifolyo:request-target:v2", [t.urlId, t.url]))
  }

  //////////////////////////////////////////////////////////////////////////////
  // Decisions
  //////////////////////////////////////////////////////////////////////////////

  function DecisionFields(b: Book, d: Decision): Result<seq<(string, string)>> {
    if d.kind !in ["robots", "document", "redirect", "render_resource"] then Err("INVALID_REQUEST_KIND")
    else if d.target !in b.targets then Err("UNKNOWN_TARGET")
    else if !Exact(d.depth) then Err("INVALID_UNSIGNED_DECIMAL")
    else if !GroupIdOk(d.group) then Err("INVALID_GROUP_ID")
    else if !Hex32(d.rateScope) then Err("INVALID_RATE_SCOPE_ID")
    else if !(1 <= d.concurrency <= 32) || !(0 <= d.interval <= 3_600_000) then Err("DECISION_NUMBER_RANGE")
    else
      var t := b.targets[d.target];
      var digest, group, origin := TargetDigest(b, t), GroupScope(b, d.rateScope), OriginScope(b, t.url);
      if digest.Err? then Err(digest.code)
      else if origin.Err? then Err(origin.code)
      else
        Ok([("request_kind", d.kind), ("target_url_id", t.urlId), ("target_digest", digest.value),
            ("depth", Decimal(d.depth)), ("group_id", d.group), ("rate_scope_id", d.rateScope),
            ("global_scope_id", b.hash.framed("mifolyo:rate:global:v2", [])),
            ("group_scope_id", group.value), ("origin_scope_id", origin.value),
            ("global_concurrency", "2"), ("global_interval_ms", "0"),
            ("group_concurrency", Decimal(d.concurrency)), ("group_interval_ms", Decimal(d.interval)),
            ("origin_concurrency", Decimal(d.concurrency)), ("origin_interval_ms", Decimal(d.interval))])
  }

  function DecisionDigest(b: Book, d: Decision): Result<Digest> {
    match DecisionFields(b, d)
    case Err(code) => Err(code)
    case Ok(fields) => Ok(b.hash.decision(fields))
  }

  /** validate_decision_policy_group_binding */
  function CheckGroup(b: Book, d: Decision): Result<()> {
    match DecisionFields(b, d)
    case Err(code) => Err(code)
    case Ok(_) =>
      if d.group !in b.groups then Err("POLICY_GROUP_BINDING_MISMATCH")
      else
        var g := b.groups[d.group];
        if !Hex32(g.rateScope) then Err("INVALID_RATE_SCOPE_ID")
        else if d.rateScope != g.rateScope || d.concurrency != g.concurrency || d.interval != g.interval then
          Err("POLICY_GROUP_BINDING_MISMATCH")
        else Ok(())
  }

  /** validate_document_binding */
  function CheckBinding(b: Book, i: Item, d: Decision): Result<()> {
    if d.kind != "document" || i.target != d.target then Err("POLICY_BINDING_MISMATCH")
    else if i.depth != d.depth || i.group != d.group || i.rateScope != d.rateScope then Err("POLICY_BINDING_MISMATCH")
    else if i.target !in b.targets then Err("UNKNOWN_TARGET")
    else
      var t := b.targets[i.target];
      if CheckTarget(b, t).Err? then CheckTarget(b, t)
      else if Origin(b, t.url).Err? then Err(Origin(b, t.url).code)
      else Ok(())
  }

  //////////////////////////////////////////////////////////////////////////////
  // Records
  //////////////////////////////////////////////////////////////////////////////

  /** The record of a job or a discovery in an output. */
  datatype Discovery = Discovery(jobId: string, url: string, depth: string, score: string, group: string,
                                 rateScope: string, decision: string)

  /** The record that is staged. */
  datatype Completed = Completed(core: Discovery, groupScope: string, originScope: string)

  /** The checks that an item passes once its names are known, and its record. */
  function Bound(b: Book, i: Item): Result<Discovery>
    requires i.target in b.targets && i.decision in b.decisions
  {
    var t, d := b.targets[i.target], b.decisions[i.decision];
    if CheckBinding(b, i, d).Err? then Err(CheckBinding(b, i, d).code)
    else if CheckGroup(b, d).Err? then Err(CheckGroup(b, d).code)
    else if !ScoreOk(i.score) then Err("INVALID_SCORE")
    else if !Exact(i.depth) then Err("INVALID_UNSIGNED_DECIMAL")
    else if !GroupIdOk(i.group) then Err("INVALID_GROUP_ID")
    else if !Hex32(i.rateScope) then Err("INVALID_RATE_SCOPE_ID")
    else
      match DecisionDigest(b, d)
      case Err(code) => Err(code)
      case Ok(digest) =>
        Ok(Discovery(t.urlId, t.url, Decimal(i.depth), i.score, i.group, i.rateScope, digest))
  }

  /** One discovery of output_records. */
  function AcceptDiscovery(b: Book, i: Item): Result<Discovery> {
    if i.target !in b.targets then Err("UNKNOWN_TARGET")
    else if i.decision !in b.decisions then Err("UNKNOWN_REFERENCE")
    else Bound(b, i)
  }

  /** source_job_fields */
  function SourceJobFields(b: Book, i: Item): Result<Discovery> {
    if i.target !in b.targets || i.decision !in b.decisions then Err("UNKNOWN_REFERENCE") else Bound(b, i)
  }

  /** source_job_fields with the scopes added */
  function CompleteFields(b: Book, i: Item): Result<Completed> {
    match SourceJobFields(b, i)
    case Err(code) => Err(code)
    case Ok(core) =>
      var group, origin := GroupScope(b, i.rateScope), OriginScope(b, core.url);
      if group.Err? then Err(group.code)
      else if origin.Err? then Err(origin.code)
      else Ok(Completed(core, group.value, origin.value))
  }

  /** The check of a staged discovery. */
  predicate CompletedOk(b: Book, r: Completed) {
    && Hex64(r.core.jobId) && UrlId(b, r.core.url) == Ok(r.core.jobId)
    && CanonicalDecimal(r.core.depth).Some? && CanonicalDecimal(r.core.depth).value <= MAX_EXACT_INTEGER
    && ScoreOk(r.core.score) && GroupIdOk(r.core.group) && Hex32(r.core.rateScope)
    && Hex64(r.groupScope) && Hex64(r.originScope) && Hex64(r.core.decision)
  }

  /** The check of a staged alias, but for its place. */
  predicate AliasOk(b: Book, a: Alias) {
    Hex64(a.urlId) && UrlId(b, a.url) == Ok(a.urlId) && Exact(a.depth)
  }

  /** The job identifier that orders a discovery. */
  function JobOf(b: Book): Item -> string {
    (i: Item) => if i.target in b.targets then b.targets[i.target].urlId else ""
  }

  function CompletedKey(r: Completed): string { r.core.jobId }

  /** What output_records accepts is what can be completed; the completed record carries the accepted one,
      passes the check of its chunk, and keeps its place in the order. */
  lemma AcceptedCompletes(b: Book, i: Item)
    ensures AcceptDiscovery(b, i).Ok? <==> CompleteFields(b, i).Ok?
    ensures AcceptDiscovery(b, i).Ok? ==>
      var r := CompleteFields(b, i).value;
      r.core == AcceptDiscovery(b, i).value && CompletedOk(b, r) && CompletedKey(r) == JobOf(b)(i)
  {
    hide ScoreOk, GroupIdOk, Hex32, Decimal, CanonicalDecimal, DecisionFields, CheckGroup, Origin;
    if AcceptDiscovery(b, i).Ok? {
      DecimalIsCanonical(i.depth);
    }
  }

  /** complete_discovery_records */
  method CompleteDiscoveries(b: Book, raw: seq<Item>) returns (r: Result<seq<Completed>>)
    ensures r.Ok? <==> forall i :: i in raw ==> CompleteFields(b, i).Ok?
    ensures r.Ok? ==>
      var sorted := SortByKey(raw, JobOf(b));
      |r.value| == |sorted| && forall k :: 0 <= k < |sorted| ==> CompleteFields(b, sorted[k]) == Ok(r.value[k])
  {
    hide *;
    var sorted := SortByKey(raw, JobOf(b));
    SortedMembers(raw, JobOf(b));
    var records: seq<Completed> := [];
    for n := 0 to |sorted|
      invariant |records| == n
      invariant forall k :: 0 <= k < n ==> CompleteFields(b, sorted[k]) == Ok(records[k])
    {
      var next := CompleteFields(b, sorted[n]);
      if next.Err? {
        assert sorted[n] in sorted;
        return Err(next.code);
      }
      records := records + [next.value];
    }
    return Ok(records);
  }

  lemma SortedMembers<T>(items: seq<T>, key: T -> string)
    ensures forall x :: x in items <==> x in SortByKey(items, key)
  {
    SortByKeyOk(items, key);
    var sorted := SortByKey(items, key);
    hide SortByKey;
    forall x ensures x in items <==> x in sorted {
      assert x in multiset(items) <==> x in multiset(sorted);
    }
  }
}
