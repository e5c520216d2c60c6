/** Transition, output, publication and commit identifiers. */
module Digests {
  import opened Outcomes
  import opened Framing
  import Texts

  /** The claims are about preimages, and about identifiers when the hash is injective. */
  type Hash = Bytes -> Bytes

  ghost predicate Injective(h: Hash) {
    forall a, b :: h(a) == h(b) ==> a == b
  }

  function Text(s: string): (b: Bytes)
    ensures |b| == |s|
  {
    seq(|s|, i requires 0 <= i < |s| => s[i] as int % 256)
  }

  const TRANSITION_DOMAIN: Bytes := Text("mifolyo:crawl-transition:v2")
  const PAYLOAD_DOMAIN: Bytes := Text("mifolyo:transition-payload:v2")
  const OUTPUT_DOMAIN: Bytes := Text("mifolyo:crawl-output:v2")
  const PUBLICATION_DOMAIN: Bytes := Text("mifolyo:page-publication:v2")
  const COMMIT_DOMAIN: Bytes := Text("mifolyo:crawl-commit:v2")

  /** Decimal text in bytes. */
  function DecimalBytes(n: nat): (b: Bytes) { Text(Texts.Decimal(n)) }

  lemma DecimalInjective(m: nat, n: nat)
    requires DecimalBytes(m) == DecimalBytes(n)
    ensures m == n
  {
    var s, t := Texts.Decimal(m), Texts.Decimal(n);
    assert Texts.AllDigits(s) && Texts.AllDigits(t);
    forall i | 0 <= i < |s| ensures s[i] == t[i] {
      assert s[i] in s && t[i] in t;
      assert Text(s)[i] == Text(t)[i];
    }
    assert s == t;
    Texts.DecimalDiffers(m, n);
  }

  //////////////////////////////////////////////////////////////////////////////
  // Digests
  //////////////////////////////////////////////////////////////////////////////

  function Hashed(h: Hash, preimage: Result<Bytes>): Result<Bytes> {
    if preimage.Ok? then Ok(h(preimage.value)) else preimage
  }

  function DigestFramed(h: Hash, domain: Bytes, values: seq<Bytes>): Result<Bytes> {
    Hashed(h, Frames([domain] + values))
  }

  function Concatenated(parts: seq<Result<Bytes>>): Result<Bytes> {
    if parts == [] then Ok([]) else Join(parts[0], Concatenated(parts[1..]))
  }

  function DigestSections(h: Hash, domain: Bytes, parts: seq<Result<Bytes>>): Result<Bytes> {
    Hashed(h, Join(Frame(domain), Concatenated(parts)))
  }

  lemma DigestFramedInjective(h: Hash, d: Bytes, v: seq<Bytes>, d': Bytes, v': seq<Bytes>)
    requires Injective(h) && DigestFramed(h, d, v).Ok? && DigestFramed(h, d, v) == DigestFramed(h, d', v')
    ensures d == d' && v == v'
  {
    hide Frames;
    FramesInjective([d] + v, [d'] + v');
    assert ([d] + v)[0] == d && ([d] + v)[1..] == v;
    assert ([d'] + v')[0] == d' && ([d'] + v')[1..] == v';
  }

  //////////////////////////////////////////////////////////////////////////////
  // Transitions
  //////////////////////////////////////////////////////////////////////////////

  datatype Transition = Transition(
    operation: Bytes, runId: Bytes, jobId: Bytes, leased: bool, fence: nat, leaseToken: Bytes, reason: Bytes,
    fields: seq<Field>)

  function TransitionPayload(h: Hash, fields: seq<Field>): Result<Bytes> {
    DigestSections(h, PAYLOAD_DOMAIN, [Section(Text("arguments"), [fields])])
  }

  function TransitionId(h: Hash, t: Transition): Result<Bytes> {
    if t.leased && !(1 <= t.fence <= Texts.MAX_EXACT_INTEGER) then Err("INVALID_UNSIGNED_DECIMAL")
    else
      var payload := TransitionPayload(h, t.fields);
      if payload.Err? then payload
      else
        DigestFramed(h, TRANSITION_DOMAIN,
                     [t.operation, t.runId, t.jobId, if t.leased then DecimalBytes(t.fence) else DecimalBytes(0),
                      if t.leased then t.leaseToken else [], t.reason, payload.value])
  }

  function VerifyReplay(storedId: Bytes, submittedId: Bytes): Result<()> {
    if storedId != submittedId then Err("IMMUTABLE_MISMATCH") else Ok(())
  }

  /** Everything an identifier covers: fence and token only under a lease. */
  predicate SameTransition(t: Transition, t': Transition) {
    && t.operation == t'.operation && t.runId == t'.runId && t.jobId == t'.jobId
    && t.leased == t'.leased && (t.leased ==> t.fence == t'.fence && t.leaseToken == t'.leaseToken)
    && t.reason == t'.reason && t.fields == t'.fields
  }

  lemma PayloadInjective(h: Hash, f: seq<Field>, f': seq<Field>)
    requires Injective(h) && TransitionPayload(h, f).Ok? && TransitionPayload(h, f) == TransitionPayload(h, f')
    ensures f == f'
  {
    hide Frame, ParseFrame, Section, ParseSection, PAYLOAD_DOMAIN;
    var a, a' := Section(Text("arguments"), [f]), Section(Text("arguments"), [f']);
    ConcatenatedOne(a);
    ConcatenatedOne(a');
    ParseFrameOf(PAYLOAD_DOMAIN, a.value);
    ParseFrameOf(PAYLOAD_DOMAIN, a'.value);
    ParseSectionOf(Text("arguments"), [f], []);
    ParseSectionOf(Text("arguments"), [f'], []);
    assert a.value + [] == a.value && a'.value + [] == a'.value;
    assert [f][0] == [f'][0];
  }

  lemma ConcatenatedOne(a: Result<Bytes>)
    ensures Concatenated([a]) == a
  {
    assert [a][1..] == [];
    if a.Ok? { assert a.value + [] == a.value; }
  }

  /** A replayed identifier is accepted exactly for the transition it was issued for. */
  lemma ReplayAcceptsOnlyIdentical(h: Hash, t: Transition, t': Transition)
    requires Injective(h) && TransitionId(h, t).Ok? && TransitionId(h, t').Ok?
    ensures VerifyReplay(TransitionId(h, t).value, TransitionId(h, t').value).Ok? <==> SameTransition(t, t')
  {
    hide DigestFramed, TransitionPayload, TRANSITION_DOMAIN, DecimalBytes;
    if TransitionId(h, t) == TransitionId(h, t') {
      var v := [t.operation, t.runId, t.jobId, if t.leased then DecimalBytes(t.fence) else DecimalBytes(0),
                if t.leased then t.leaseToken else [], t.reason, TransitionPayload(h, t.fields).value];
      var v' := [t'.operation, t'.runId, t'.jobId, if t'.leased then DecimalBytes(t'.fence) else DecimalBytes(0),
                 if t'.leased then t'.leaseToken else [], t'.reason, TransitionPayload(h, t'.fields).value];
      DigestFramedInjective(h, TRANSITION_DOMAIN, v, TRANSITION_DOMAIN, v');
      assert v[0] == v'[0] && v[1] == v'[1] && v[2] == v'[2] && v[3] == v'[3];
      assert v[4] == v'[4] && v[5] == v'[5] && v[6] == v'[6];
      DecimalInjective(if t.leased then t.fence else 0, if t'.leased then t'.fence else 0);
      PayloadInjective(h, t.fields, t'.fields);
    }
  }

  //////////////////////////////////////////////////////////////////////////////
  // Output, publication and commit
  //////////////////////////////////////////////////////////////////////////////

  type Records = seq<seq<Field>>

  datatype Output = Output(page: Records, outlinks: Records, images: Records, discoveries: Records, aliases: Records)

  function OutputDigest(h: Hash, o: Output): Result<Bytes> {
    DigestSections(h, OUTPUT_DOMAIN,
                   [Section(Text("page"), o.page), Section(Text("outlinks"), o.outlinks),
                    Section(Text("images"), o.images), Section(Text("discoveries"), o.discoveries),
                    Section(Text("aliases"), o.aliases)])
  }

  /** Two lists of sections with the same labels and the same bytes hold the same records. */
  lemma {:induction false} SectionsInjective(labels: seq<Bytes>, r: seq<Records>, r': seq<Records>)
    requires |labels| == |r| == |r'|
    requires Concatenated(Sections(labels, r)).Ok?
    requires Concatenated(Sections(labels, r)) == Concatenated(Sections(labels, r'))
    ensures r == r'
  {
    hide Section, ParseSection;
    if labels != [] {
      var s, s' := Sections(labels, r), Sections(labels, r');
      assert s[1..] == Sections(labels[1..], r[1..]) && s'[1..] == Sections(labels[1..], r'[1..]);
      ParseSectionOf(labels[0], r[0], Concatenated(s[1..]).value);
      ParseSectionOf(labels[0], r'[0], Concatenated(s'[1..]).value);
      SectionsInjective(labels[1..], r[1..], r'[1..]);
      assert r == [r[0]] + r[1..] && r' == [r'[0]] + r'[1..];
    }
  }

  function Sections(labels: seq<Bytes>, r: seq<Records>): (s: seq<Result<Bytes>>)
    requires |labels| == |r|
    ensures |s| == |r|
  {
    if r == [] then [] else [Section(labels[0], r[0])] + Sections(labels[1..], r[1..])
  }

  lemma OutputDigestInjective(h: Hash, o: Output, o': Output)
    requires Injective(h) && OutputDigest(h, o).Ok? && OutputDigest(h, o) == OutputDigest(h, o')
    ensures o == o'
  {
    hide Frame, ParseFrame, Section, OUTPUT_DOMAIN, Concatenated, Text;
    var labels := [Text("page"), Text("outlinks"), Text("images"), Text("discoveries"), Text("aliases")];
    var r := [o.page, o.outlinks, o.images, o.discoveries, o.aliases];
    var r' := [o'.page, o'.outlinks, o'.images, o'.discoveries, o'.aliases];
    SectionsFive(labels, r);
    SectionsFive(labels, r');
    ParseFrameOf(OUTPUT_DOMAIN, Concatenated(Sections(labels, r)).value);
    ParseFrameOf(OUTPUT_DOMAIN, Concatenated(Sections(labels, r')).value);
    SectionsInjective(labels, r, r');
    assert r[0] == r'[0] && r[1] == r'[1] && r[2] == r'[2] && r[3] == r'[3] && r[4] == r'[4];
  }

  lemma SectionsFive(labels: seq<Bytes>, r: seq<Records>)
    requires |labels| == |r| == 5
    ensures Sections(labels, r)
            == [Section(labels[0], r[0]), Section(labels[1], r[1]), Section(labels[2], r[2]), Section(labels[3], r[3]),
                Section(labels[4], r[4])]
  {
    hide Section;
    SectionAt(labels, r, 0);
    SectionAt(labels, r, 1);
    SectionAt(labels, r, 2);
    SectionAt(labels, r, 3);
    SectionAt(labels, r, 4);
  }

  lemma {:induction false} SectionAt(labels: seq<Bytes>, r: seq<Records>, k: nat)
    requires |labels| == |r| && k < |r|
    ensures Sections(labels, r)[k] == Section(labels[k], r[k])
  {
    hide Section;
    if k > 0 {
      SectionAt(labels[1..], r[1..], k - 1);
    }
  }

  datatype Identities = Identities(runId: Bytes, jobId: Bytes, fence: nat, leaseToken: Bytes)

  datatype Committed = Committed(publication: Bytes, commit: Bytes)

  function PublicationAndCommit(h: Hash, ids: Identities, outputDigest: Bytes, baseline: nat, generation: nat):
    Result<Committed>
  {
    if !(1 <= ids.fence <= Texts.MAX_EXACT_INTEGER) then Err("INVALID_UNSIGNED_DECIMAL")
    else
      var publication :=
        DigestFramed(h, PUBLICATION_DOMAIN, [ids.runId, ids.jobId, DecimalBytes(ids.fence), outputDigest]);
      if publication.Err? then Err(publication.code)
      else
        var commit := DigestFramed(h, COMMIT_DOMAIN,
                                   [ids.runId, ids.jobId, DecimalBytes(ids.fence), ids.leaseToken, publication.value,
                                    DecimalBytes(baseline), DecimalBytes(generation)]);
        if commit.Err? then Err(commit.code) else Ok(Committed(publication.value, commit.value))
  }

  /** A commit identifier pins the lease, the request interval and every record of the output. */
  lemma CommitInjective(h: Hash, ids: Identities, o: Output, baseline: nat, generation: nat,
                        ids': Identities, o': Output, baseline': nat, generation': nat)
    requires Injective(h) && OutputDigest(h, o).Ok? && OutputDigest(h, o').Ok?
    requires var c := PublicationAndCommit(h, ids, OutputDigest(h, o).value, baseline, generation);
             var c' := PublicationAndCommit(h, ids', OutputDigest(h, o').value, baseline', generation');
             c.Ok? && c'.Ok? && c.value.commit == c'.value.commit
    ensures ids == ids' && o == o' && baseline == baseline' && generation == generation'
  {
    hide DigestFramed, OutputDigest, COMMIT_DOMAIN, PUBLICATION_DOMAIN, DecimalBytes;
    var d, d' := OutputDigest(h, o).value, OutputDigest(h, o').value;
    var p := [ids.runId, ids.jobId, DecimalBytes(ids.fence), d];
    var p' := [ids'.runId, ids'.jobId, DecimalBytes(ids'.fence), d'];
    var pub, pub' := DigestFramed(h, PUBLICATION_DOMAIN, p), DigestFramed(h, PUBLICATION_DOMAIN, p');
    var c := [ids.runId, ids.jobId, DecimalBytes(ids.fence), ids.leaseToken, pub.value, DecimalBytes(baseline),
              DecimalBytes(generation)];
    var c' := [ids'.runId, ids'.jobId, DecimalBytes(ids'.fence), ids'.leaseToken, pub'.value, DecimalBytes(baseline'),
               DecimalBytes(generation')];
    DigestFramedInjective(h, COMMIT_DOMAIN, c, COMMIT_DOMAIN, c');
    assert c[0] == c'[0] && c[1] == c'[1] && c[2] == c'[2] && c[3] == c'[3];
    assert c[4] == c'[4] && c[5] == c'[5] && c[6] == c'[6];
    DigestFramedInjective(h, PUBLICATION_DOMAIN, p, PUBLICATION_DOMAIN, p');
    assert p[3] == p'[3];
    DecimalInjective(ids.fence, ids'.fence);
    DecimalInjective(baseline, baseline');
    DecimalInjective(generation, generation');
    OutputDigestInjective(h, o, o');
  }

  /** Identifiers of different kinds never coincide, whatever they are computed from. */
  lemma KindsSeparate(h: Hash, t: seq<Bytes>, p: seq<Bytes>, c: seq<Bytes>)
    requires Injective(h)
    requires DigestFramed(h, TRANSITION_DOMAIN, t).Ok? && DigestFramed(h, PUBLICATION_DOMAIN, p).Ok?
    requires DigestFramed(h, COMMIT_DOMAIN, c).Ok?
    ensures DigestFramed(h, TRANSITION_DOMAIN, t) != DigestFramed(h, PUBLICATION_DOMAIN, p)
    ensures DigestFramed(h, TRANSITION_DOMAIN, t) != DigestFramed(h, COMMIT_DOMAIN, c)
    ensures DigestFramed(h, PUBLICATION_DOMAIN, p) != DigestFramed(h, COMMIT_DOMAIN, c)
  {
    assert TRANSITION_DOMAIN[8] != PUBLICATION_DOMAIN[8];
    assert |COMMIT_DOMAIN| < |TRANSITION_DOMAIN| && |COMMIT_DOMAIN| < |PUBLICATION_DOMAIN|;
    hide DigestFramed, TRANSITION_DOMAIN, PUBLICATION_DOMAIN, COMMIT_DOMAIN;
    if DigestFramed(h, TRANSITION_DOMAIN, t) == DigestFramed(h, PUBLICATION_DOMAIN, p) {
      DigestFramedInjective(h, TRANSITION_DOMAIN, t, PUBLICATION_DOMAIN, p);
    }
    if DigestFramed(h, TRANSITION_DOMAIN, t) == DigestFramed(h, COMMIT_DOMAIN, c) {
      DigestFramedInjective(h, TRANSITION_DOMAIN, t, COMMIT_DOMAIN, c);
    }
    if DigestFramed(h, PUBLICATION_DOMAIN, p) == DigestFramed(h, COMMIT_DOMAIN, c) {
      DigestFramedInjective(h, PUBLICATION_DOMAIN, p, COMMIT_DOMAIN, c);
    }
  }
}
