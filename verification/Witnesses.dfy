/** The transcript of a crawl with its source job and lease, and the witness that pins it. */
module Witnesses {
  import opened Outcomes
  import opened Texts
  import opened Policies
  import opened Transcript

  datatype Identities = Identities(runId: string, ownerId: string, alternateOwnerId: string, rateScopeId: string,
                                   jobId: string, leaseToken: string, policyDigest: string, fence: int)

  /** A crawl: its source jobs, which of them it serves, its lease, and its requests. */
  datatype Run = Run(sources: seq<Item>, index: int, identities: Identities, baseline: string, generation: string,
                     requests: seq<Request>)

  /** validate_identity_values */
  function IdentityFault(i: Identities): Option<string> {
    if !Hex32(i.runId) || !Hex32(i.ownerId) || !Hex32(i.alternateOwnerId) || !Hex32(i.rateScopeId) then
      Some("INVALID_IDENTITY")
    else if !Hex64(i.jobId) then Some("INVALID_IDENTITY")
    else if !Hex64(i.leaseToken) then Some("INVALID_LEASE_TOKEN")
    else if !Hex64(i.policyDigest) then Some("INVALID_IDENTITY")
    else if !(1 <= i.fence <= MAX_EXACT_INTEGER) then Some("INVALID_UNSIGNED_DECIMAL")
    else None
  }

  /** A target that requests may go to. */
  predicate Usable(b: Book, name: string) {
    name in b.targets && CheckTarget(b, b.targets[name]).Ok? && Origin(b, b.targets[name].url).Ok?
  }

  function ContextOf(b: Book, r: Run, source: string): Context {
    Context(r.baseline, r.generation, r.requests, source, b.targets.Keys, set n | n in b.targets && Usable(b, n))
  }

  /** What an accepted transcript amounts to. */
  datatype Crawl = Crawl(source: Item, documents: seq<Request>, lastTime: int, baseline: nat, generation: nat)

  /** output_transcript without its witness */
  function CrawlOf(b: Book, r: Run): Result<Crawl> {
    var interval := Interval(Context(r.baseline, r.generation, [], "", {}, {}));
    if interval.Err? then Err(interval.code)
    else if !(0 <= r.index < |r.sources|) then Err("OUTPUT_CONTEXT_MISMATCH")
    else
      var source := r.sources[r.index];
      match SourceJobFields(b, source)
      case Err(code) => Err(code)
      case Ok(fields) =>
        if IdentityFault(r.identities).Some? then Err(IdentityFault(r.identities).value)
        else if r.identities.jobId != fields.jobId then Err("OUTPUT_CONTEXT_MISMATCH")
        else
          match Check(ContextOf(b, r, source.target))
          case Err(code) => Err(code)
          case Ok(a) => Ok(Crawl(source, a.documents, a.lastTime, interval.value.0, interval.value.1))
  }

  /** str of an integer */
  function IntText(n: int): string { if n < 0 then "-" + Decimal(-n) else Decimal(n) }

  /** The names, times and numbers of an accepted transcript are in range. */
  lemma CrawlKnown(b: Book, r: Run)
    requires CrawlOf(b, r).Ok?
    ensures var c := CrawlOf(b, r).value;
      && 1 <= |c.documents| <= MAX_REQUEST_STARTS && Usable(b, c.source.target) && 1 <= r.identities.fence
      && (forall d :: d in c.documents ==> Usable(b, d.target) && d.startedAt >= 1)
      && c.lastTime >= 1
  {
    hide Check, Interval, CheckTarget, Origin, CheckGroup, DecisionDigest, ScoreOk, GroupIdOk, Hex32, Hex64;
    var c := CrawlOf(b, r).value;
    DocumentsKnown(ContextOf(b, r, c.source.target));
    LastTime(ContextOf(b, r, c.source.target));
  }

  lemma LastTime(c: Context)
    requires Check(c).Ok?
    ensures Check(c).value.lastTime >= 1
  {
    hide TranscriptDecimal, Shaped, DocumentAt, DocumentsOf, RunUpTo;
    AcceptsExactlyTranscripts(c);
  }

  /** The thirteen fields that the transition scripts must have stored. */
  function ExpectedWitness(b: Book, r: Run): (w: seq<string>)
    requires CrawlOf(b, r).Ok?
    ensures |w| == 13
  {
    CrawlKnown(b, r);
    var c, ids := CrawlOf(b, r).value, r.identities;
    var final := c.documents[|c.documents| - 1];
    assert final in c.documents;
    var t := b.targets[final.target];
    [IntText(final.startedAt), IntText(ids.fence), t.urlId, t.url, TargetDigest(b, t).value, Decimal(c.generation),
     IntText(c.lastTime), Decimal(c.baseline), "leased", ids.ownerId, ids.leaseToken, IntText(ids.fence), ""]
  }

  /** The comparison with a witness, if there is one. */
  function CheckWitness(expected: seq<string>, stored: Option<seq<string>>): Result<()> {
    if stored.None? then Ok(())
    else if |stored.value| != 13 then Err("RESPONSE_ARITY")
    else if stored.value != expected then Err("TRANSCRIPT_BINDING_MISMATCH")
    else Ok(())
  }

  /** output_transcript */
  method OutputTranscriptOf(b: Book, r: Run, stored: Option<seq<string>>) returns (o: Result<Crawl>)
    ensures o.Ok? <==> CrawlOf(b, r).Ok? && (stored.Some? ==> stored.value == ExpectedWitness(b, r))
    ensures o.Ok? ==> o == CrawlOf(b, r)
    ensures CrawlOf(b, r).Err? ==> o == CrawlOf(b, r)
  {
    hide CrawlOf, ExpectedWitness;
    var crawl := CrawlOf(b, r);
    if crawl.Err? {
      return crawl;
    }
    var checked := CheckWitness(ExpectedWitness(b, r), stored);
    return if checked.Err? then Err(checked.code) else crawl;
  }

  lemma IntTextDiffers(m: int, n: int)
    requires m >= 0 && n >= 0 && IntText(m) == IntText(n)
    ensures m == n
  {
    DecimalDiffers(m, n);
    hide Decimal;
  }

  /** The same lease, interval of request starts, last start, and final document. */
  predicate SameCrawl(b: Book, c: Crawl, i: Identities, c': Crawl, i': Identities) {
    && i.fence == i'.fence && i.ownerId == i'.ownerId && i.leaseToken == i'.leaseToken
    && c.baseline == c'.baseline && c.generation == c'.generation && c.lastTime == c'.lastTime
    && c.documents != [] && c'.documents != []
    && (var d, d' := c.documents[|c.documents| - 1], c'.documents[|c'.documents| - 1];
        && d.startedAt == d'.startedAt && d.target in b.targets && d'.target in b.targets
        && b.targets[d.target] == b.targets[d'.target])
  }

  /** A witness pins a crawl: no two that differ in any of these have one witness. */
  lemma WitnessPins(b: Book, r: Run, r': Run)
    requires CrawlOf(b, r).Ok? && CrawlOf(b, r').Ok? && ExpectedWitness(b, r) == ExpectedWitness(b, r')
    ensures SameCrawl(b, CrawlOf(b, r).value, r.identities, CrawlOf(b, r').value, r'.identities)
  {
    hide CrawlOf, IntText, Decimal, CheckTarget, Origin, TargetDigest;
    CrawlKnown(b, r);
    CrawlKnown(b, r');
    var c, c' := CrawlOf(b, r).value, CrawlOf(b, r').value;
    var d, d' := c.documents[|c.documents| - 1], c'.documents[|c'.documents| - 1];
    var w, w' := ExpectedWitness(b, r), ExpectedWitness(b, r');
    assert d in c.documents && d' in c'.documents;
    assert w[0] == w'[0] && w[1] == w'[1] && w[2] == w'[2] && w[3] == w'[3] && w[5] == w'[5] && w[6] == w'[6];
    assert w[7] == w'[7] && w[9] == w'[9] && w[10] == w'[10];
    IntTextDiffers(d.startedAt, d'.startedAt);
    IntTextDiffers(r.identities.fence, r'.identities.fence);
    IntTextDiffers(c.lastTime, c'.lastTime);
    DecimalDiffers(c.generation, c'.generation);
    DecimalDiffers(c.baseline, c'.baseline);
  }
}
