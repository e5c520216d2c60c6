/** What is hashed for each identifier, read back frame by frame. */
module Preimages {
  import opened Outcomes
  import opened Framing
  import opened Digests
  import Texts

  /** All frames of a text of frames. */
  function ReadFrames(b: Bytes): Option<seq<Bytes>>
    decreases |b|
  {
    if b == [] then Some([])
    else
      match ParseFrame(b)
      case None => None
      case Some(p) =>
        match ReadFrames(p.rest)
        case None => None
        case Some(rest) => Some([p.value] + rest)
  }

  lemma {:induction false} FramesRead(values: seq<Bytes>)
    requires Frames(values).Ok?
    ensures ReadFrames(Frames(values).value) == Some(values)
  {
    hide Frame, ParseFrame;
    FramesNonempty(values);
    if values != [] {
      ParseFrameOf(values[0], Frames(values[1..]).value);
      FramesRead(values[1..]);
      assert values == [values[0]] + values[1..];
    }
  }

  lemma FramedPreimage(h: Hash, domain: Bytes, values: seq<Bytes>) returns (pre: Bytes)
    requires DigestFramed(h, domain, values).Ok?
    ensures DigestFramed(h, domain, values) == Ok(h(pre)) && ReadFrames(pre) == Some([domain] + values)
  {
    hide Frames, ReadFrames;
    FramesRead([domain] + values);
    pre := Frames([domain] + values).value;
  }

  /** A transition identifier is the hash of eight frames: the domain, the operation, run and job, the fence and the
      token of the lease ("0" and nothing without one), the reason, and the payload digest. */
  lemma TransitionPreimage(h: Hash, t: Transition) returns (pre: Bytes, payload: Bytes)
    requires TransitionId(h, t).Ok?
    ensures TransitionId(h, t) == Ok(h(pre)) && TransitionPayload(h, t.fields) == Ok(payload)
    ensures ReadFrames(pre) ==
      Some([Text("mifolyo:crawl-transition:v2"), t.operation, t.runId, t.jobId,
            Text(if t.leased then Texts.Decimal(t.fence) else "0"), if t.leased then t.leaseToken else [],
            t.reason, payload])
  {
    hide DigestFramed, TransitionPayload, ReadFrames, TRANSITION_DOMAIN;
    DomainTexts();
    payload := TransitionPayload(h, t.fields).value;
    var values := [t.operation, t.runId, t.jobId, if t.leased then DecimalBytes(t.fence) else DecimalBytes(0),
                   if t.leased then t.leaseToken else [], t.reason, payload];
    pre := FramedPreimage(h, TRANSITION_DOMAIN, values);
    assert [TRANSITION_DOMAIN] + values ==
      [TRANSITION_DOMAIN, values[0], values[1], values[2], values[3], values[4], values[5], values[6]];
  }

  lemma DomainTexts()
    ensures TRANSITION_DOMAIN == Text("mifolyo:crawl-transition:v2")
    ensures PAYLOAD_DOMAIN == Text("mifolyo:transition-payload:v2")
    ensures OUTPUT_DOMAIN == Text("mifolyo:crawl-output:v2")
    ensures PUBLICATION_DOMAIN == Text("mifolyo:page-publication:v2")
    ensures COMMIT_DOMAIN == Text("mifolyo:crawl-commit:v2")
    ensures DecimalBytes(0) == Text("0")
  {
  }

  /** A publication and a commit identifier: what is framed for each, in order. */
  lemma CommitPreimages(h: Hash, ids: Identities, outputDigest: Bytes, baseline: nat, generation: nat)
    returns (publication: Bytes, commit: Bytes)
    requires PublicationAndCommit(h, ids, outputDigest, baseline, generation).Ok?
    ensures PublicationAndCommit(h, ids, outputDigest, baseline, generation) == Ok(Committed(h(publication), h(commit)))
    ensures var fence := Text(Texts.Decimal(ids.fence));
      && ReadFrames(publication) ==
           Some([Text("mifolyo:page-publication:v2"), ids.runId, ids.jobId, fence, outputDigest])
      && ReadFrames(commit) ==
           Some([Text("mifolyo:crawl-commit:v2"), ids.runId, ids.jobId, fence, ids.leaseToken, h(publication),
                 Text(Texts.Decimal(baseline)), Text(Texts.Decimal(generation))])
  {
    hide DigestFramed, ReadFrames, PUBLICATION_DOMAIN, COMMIT_DOMAIN;
    DomainTexts();
    var p := [ids.runId, ids.jobId, DecimalBytes(ids.fence), outputDigest];
    publication := FramedPreimage(h, PUBLICATION_DOMAIN, p);
    assert [PUBLICATION_DOMAIN] + p == [PUBLICATION_DOMAIN, p[0], p[1], p[2], p[3]];
    var c := [ids.runId, ids.jobId, DecimalBytes(ids.fence), ids.leaseToken, h(publication), DecimalBytes(baseline),
              DecimalBytes(generation)];
    commit := FramedPreimage(h, COMMIT_DOMAIN, c);
    assert [COMMIT_DOMAIN] + c == [COMMIT_DOMAIN, c[0], c[1], c[2], c[3], c[4], c[5], c[6]];
  }

  //////////////////////////////////////////////////////////////////////////////
  // Sections
  //////////////////////////////////////////////////////////////////////////////

  /** All sections of a text of sections. */
  function ReadSections(b: Bytes, n: nat): Option<seq<ParsedSection>>
    decreases n
  {
    if n == 0 then if b == [] then Some([]) else None
    else
      match ParseSection(b)
      case None => None
      case Some(p) =>
        match ReadSections(p.rest, n - 1)
        case None => None
        case Some(rest) => Some([p.value] + rest)
  }

  function Labelled(labels: seq<Bytes>, r: seq<Records>): seq<ParsedSection>
    requires |labels| == |r|
  {
    seq(|r|, i requires 0 <= i < |r| => ParsedSection(labels[i], r[i]))
  }

  lemma {:induction false} SectionsRead(labels: seq<Bytes>, r: seq<Records>)
    requires |labels| == |r| && Concatenated(Sections(labels, r)).Ok?
    ensures ReadSections(Concatenated(Sections(labels, r)).value, |r|) == Some(Labelled(labels, r))
  {
    hide Section, ParseSection;
    if r != [] {
      var s := Sections(labels, r);
      assert s[1..] == Sections(labels[1..], r[1..]);
      ParseSectionOf(labels[0], r[0], Concatenated(s[1..]).value);
      SectionsRead(labels[1..], r[1..]);
      assert Labelled(labels, r) == [ParsedSection(labels[0], r[0])] + Labelled(labels[1..], r[1..]);
      assert Concatenated(s) == Join(s[0], Concatenated(s[1..]));
    } else {
      assert Labelled(labels, r) == [];
    }
  }

  lemma SectionsPreimage(h: Hash, domain: Bytes, labels: seq<Bytes>, r: seq<Records>) returns (pre: Bytes, rest: Bytes)
    requires |labels| == |r| && DigestSections(h, domain, Sections(labels, r)).Ok?
    ensures DigestSections(h, domain, Sections(labels, r)) == Ok(h(pre))
    ensures ParseFrame(pre) == Some(Parsed(domain, rest)) && ReadSections(rest, |r|) == Some(Labelled(labels, r))
  {
    hide Frame, ParseFrame, Concatenated, ReadSections;
    SectionsRead(labels, r);
    rest := Concatenated(Sections(labels, r)).value;
    pre := Frame(domain).value + rest;
    ParseFrameOf(domain, rest);
  }

  /** A payload digest is the hash of the domain and one section of one record. */
  lemma PayloadPreimage(h: Hash, fields: seq<Field>) returns (pre: Bytes, rest: Bytes)
    requires TransitionPayload(h, fields).Ok?
    ensures TransitionPayload(h, fields) == Ok(h(pre))
    ensures ParseFrame(pre) == Some(Parsed(Text("mifolyo:transition-payload:v2"), rest))
    ensures ReadSections(rest, 1) == Some([ParsedSection(Text("arguments"), [fields])])
  {
    hide DigestSections, ParseFrame, ReadSections, Section, PAYLOAD_DOMAIN;
    DomainTexts();
    var labels, r := [Text("arguments")], [[fields]];
    assert Sections(labels[1..], r[1..]) == [];
    assert Sections(labels, r) == [Section(labels[0], r[0])];
    pre, rest := SectionsPreimage(h, PAYLOAD_DOMAIN, labels, r);
    assert Labelled(labels, r) == [ParsedSection(Text("arguments"), [fields])];
  }

  /** An output digest is the hash of the domain and five sections in order. */
  lemma OutputPreimage(h: Hash, o: Output) returns (pre: Bytes, rest: Bytes)
    requires OutputDigest(h, o).Ok?
    ensures OutputDigest(h, o) == Ok(h(pre)) && ParseFrame(pre) == Some(Parsed(Text("mifolyo:crawl-output:v2"), rest))
    ensures ReadSections(rest, 5) ==
      Some([ParsedSection(Text("page"), o.page), ParsedSection(Text("outlinks"), o.outlinks),
            ParsedSection(Text("images"), o.images), ParsedSection(Text("discoveries"), o.discoveries),
            ParsedSection(Text("aliases"), o.aliases)])
  {
    hide DigestSections, ParseFrame, ReadSections, Section, OUTPUT_DOMAIN, Text;
    var labels := [Text("page"), Text("outlinks"), Text("images"), Text("discoveries"), Text("aliases")];
    var r := [o.page, o.outlinks, o.images, o.discoveries, o.aliases];
    SectionsFive(labels, r);
    DomainTexts();
    pre, rest := SectionsPreimage(h, OUTPUT_DOMAIN, labels, r);
    assert Labelled(labels, r) ==
      [ParsedSection(labels[0], r[0]), ParsedSection(labels[1], r[1]), ParsedSection(labels[2], r[2]),
       ParsedSection(labels[3], r[3]), ParsedSection(labels[4], r[4])];
  }
}
