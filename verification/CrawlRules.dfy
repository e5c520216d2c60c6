/** Which crawls are accepted, and what the witness of one says when it is read. */
module CrawlRules {
  import opened Outcomes
  import opened Texts
  import opened Policies
  import opened PolicyRules
  import opened Transcript
  import opened Witnesses

  ghost predicate Lower16(s: string, n: nat) { |s| == n && forall c :: c in s ==> '0' <= c <= '9' || 'a' <= c <= 'f' }

  /** The identities of a lease. */
  ghost predicate LeaseOk(i: Identities) {
    && Lower16(i.runId, 32) && Lower16(i.ownerId, 32) && Lower16(i.alternateOwnerId, 32) && Lower16(i.rateScopeId, 32)
    && Lower16(i.jobId, 64) && Lower16(i.leaseToken, 64) && Lower16(i.policyDigest, 64)
    && 1 <= i.fence < 0x20_0000_0000_0000
  }

  lemma LeaseExactly(i: Identities)
    ensures IdentityFault(i).None? <==> LeaseOk(i)
  {
    assert forall s, n | n in {32, 64} ::
      Lower16(s, n) <==> |s| == n && forall c :: c in s ==> LowerHex(c);
  }

  /** The transcript that the names of a book permit. */
  ghost function Permitted(b: Book, r: Run, source: string): Context {
    Context(r.baseline, r.generation, r.requests, source, b.targets.Keys,
            set n | n in b.targets && TargetOk(b, b.targets[n]))
  }

  lemma PermittedIs(b: Book, r: Run, source: string)
    ensures ContextOf(b, r, source) == Permitted(b, r, source)
  {
    hide CheckTarget, Origin, TargetOk;
    forall n | n in b.targets ensures Usable(b, n) <==> TargetOk(b, b.targets[n]) { TargetIs(b, b.targets[n]); }
    assert ContextOf(b, r, source).usable == Permitted(b, r, source).usable;
  }

  /** An accepted job under a lease for its URL, and a transcript over targets that may be requested. */
  ghost predicate CrawlFits(b: Book, r: Run) {
    && 0 <= r.index < |r.sources| && LeaseOk(r.identities)
    && (var s := r.sources[r.index];
        && Decided(b, s) && ScoreOk(s.score) && r.identities.jobId == b.hash.url(b.targets[s.target].url)
        && IsTranscript(Permitted(b, r, s.target)))
  }

  ghost predicate CrawlSays(r: Run, c: Crawl) {
    && 0 <= r.index < |r.sources| && c.source == r.sources[r.index]
    && r.baseline == Decimal(c.baseline) && r.generation == Decimal(c.generation)
    && c.documents == DocumentsOf(r.requests)
    && r.requests != [] && c.lastTime == r.requests[|r.requests| - 1].startedAt
  }

  /** Which crawls are accepted, and what is known of one. */
  lemma CrawlExactly(b: Book, r: Run)
    ensures CrawlOf(b, r).Ok? <==> CrawlFits(b, r)
    ensures CrawlOf(b, r).Ok? ==> CrawlSays(r, CrawlOf(b, r).value)
  {
    hide AcceptDiscovery, SourceJobFields, Check, Interval, IsTranscript, LeaseOk, IdentityFault, Decided, ScoreOk,
      ContextOf, Permitted, Decimal, DocumentsOf;
    LeaseExactly(r.identities);
    IntervalIs(r.baseline, r.generation);
    if 0 <= r.index < |r.sources| {
      var s := r.sources[r.index];
      JobFields(b, s);
      AcceptExactly(b, s);
      PermittedIs(b, r, s.target);
      TranscriptIs(b, r, s.target);
    }
  }

  lemma IntervalIs(baseline: string, generation: string)
    ensures var i := Interval(Context(baseline, generation, [], "", {}, {}));
      i.Ok? ==> baseline == Decimal(i.value.0) && generation == Decimal(i.value.1)
  {
    hide TranscriptDecimal, Decimal;
    var x, y := TranscriptDecimal(baseline, 10, false), TranscriptDecimal(generation, 10, true);
    if x.Ok? { TranscriptDecimalIs(baseline, 10, false, x.value); }
    if y.Ok? { TranscriptDecimalIs(generation, 10, true, y.value); }
  }

  lemma JobFields(b: Book, i: Item)
    ensures SourceJobFields(b, i).Ok? <==> AcceptDiscovery(b, i).Ok?
    ensures AcceptDiscovery(b, i).Ok? ==> SourceJobFields(b, i) == AcceptDiscovery(b, i)
  {
    hide Bound;
  }

  lemma TranscriptIs(b: Book, r: Run, source: string)
    ensures var c := ContextOf(b, r, source);
      && (Check(c).Ok? <==> IsTranscript(c))
      && (IsTranscript(c) ==> Interval(Context(r.baseline, r.generation, [], "", {}, {})).Ok?)
      && (Check(c).Ok? ==> r.requests != [] && Check(c).value.documents == DocumentsOf(r.requests)
                           && Check(c).value.lastTime == r.requests[|r.requests| - 1].startedAt)
  {
    hide Check, TranscriptDecimal, Counted, Shaped, DocumentAt, DocumentsOf;
    AcceptsExactlyTranscripts(ContextOf(b, r, source));
  }

  //////////////////////////////////////////////////////////////////////////////
  // Witnesses
  //////////////////////////////////////////////////////////////////////////////

  /** The number that a field of a witness stands for. */
  function Read(w: seq<string>, n: nat): Option<nat>
    requires n < |w|
  {
    CanonicalDecimal(w[n])
  }

  /** What the thirteen fields say. */
  ghost predicate WitnessSays(b: Book, i: Identities, c: Crawl, w: seq<string>) {
    && |w| == 13 && c.documents != []
    && (var final := c.documents[|c.documents| - 1];
        && final.target in b.targets && w[3] == b.targets[final.target].url && Read(w, 0) == Some(final.startedAt))
    && w[2] == b.hash.url(w[3]) && w[4] == b.hash.framed("mifolyo:request-target:v2", [w[2], w[3]])
    && Read(w, 1) == Read(w, 11) == Some(i.fence)
    && Read(w, 5) == Some(c.generation) && Read(w, 6) == Some(c.lastTime) && Read(w, 7) == Some(c.baseline)
    && w[8] == "leased" && w[9] == i.ownerId && w[10] == i.leaseToken && w[12] == ""
  }

  /** The witness of a crawl, field by field. */
  lemma WitnessReads(b: Book, r: Run)
    requires CrawlOf(b, r).Ok?
    ensures WitnessSays(b, r.identities, CrawlOf(b, r).value, ExpectedWitness(b, r))
  {
    hide CrawlOf, Decimal, CanonicalDecimal, Origin, UrlId, Usable, TargetDigest, CheckTarget;
    CrawlKnown(b, r);
    var c := CrawlOf(b, r).value;
    var final := c.documents[|c.documents| - 1];
    assert final in c.documents;
    TargetKnown(b, final.target);
    DecimalIsCanonical(final.startedAt);
    DecimalIsCanonical(r.identities.fence);
    DecimalIsCanonical(c.generation);
    DecimalIsCanonical(c.lastTime);
    DecimalIsCanonical(c.baseline);
  }

  lemma TargetKnown(b: Book, name: string)
    requires Usable(b, name)
    ensures name in b.targets
    ensures var t := b.targets[name];
      && t.urlId == b.hash.url(t.url)
      && TargetDigest(b, t) == Ok(b.hash.framed("mifolyo:request-target:v2", [t.urlId, t.url]))
  {
    hide Origin, NamedUrl;
    TargetIs(b, b.targets[name]);
  }
}
