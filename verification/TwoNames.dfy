/** An accepted output that cannot be staged: its document and its redirect name two targets with one URL. */
module TwoNames {
  import opened Outcomes
  import opened Texts
  import opened Outputs
  import opened Policies
  import opened Pages
  import opened Witnesses
  import opened StagedOutput
  import Timestamps
  import Transcript
  import UrlHosts
  import UrlParse
  import UrlFolding
  import UrlValidators

  const URL: string := "http://k.com/"

  function Zeros(n: nat): string { seq(n, i => '0') }

  const VISIT: Decision := Decision("document", "page", 0, "g", Zeros(32), 1, 0)
  const SOURCE: Item := Item("page", "visit", 0, "g", Zeros(32), "0")
  const DOCUMENT: Transcript.Request := Transcript.Request(Transcript.Document, "page", 1, "1", "1")
  const REDIRECT: Transcript.Request := Transcript.Request(Transcript.Redirect, "moved", 1, "2", "2")
  const OUTPUT: RawOutput := RawOutput(RawPage("moved", "", "", "text/html", 200, false, "", ""), [], [], [])

  /** Two names, one target. */
  function OneTarget(alabel: string -> bool, h: Hashing): Book {
    var t := Target(h.url(URL), URL);
    Book(alabel, h, map["page" := t, "moved" := t], map["visit" := VISIT], map["g" := Group(Zeros(32), 1, 0)])
  }

  function Redirected(h: Hashing): Run {
    var identities := Identities(Zeros(32), Zeros(32), Zeros(32), Zeros(32), h.url(URL), Zeros(64), Zeros(64), 1);
    Run([SOURCE], 0, identities, "0", "2", [DOCUMENT, REDIRECT])
  }

  lemma UrlIsIdentity(alabel: string -> bool)
    ensures var r := UrlValidators.ValidateIdentity(alabel, URL); r.Ok? && !r.value.isIp
  {
    hide UrlValidators.ValidateIdentity, UrlParse.Good, UrlParse.Render;
    var id := UrlParse.Identity("http", "k.com", None, "/", None);
    UrlFolding.KelvinText(id);
    UrlFolding.PlainIsGood(alabel);
    UrlValidators.CanonicalIsIdentity(alabel, id);
    NotAddress();
    hide UrlHosts.Ipv4, UrlHosts.Ipv6;
  }

  lemma NotAddress()
    ensures !UrlHosts.Ipv4("k.com") && !UrlHosts.Ipv6("k.com")
  {
    UrlFolding.PlainLabels();
    hide SplitOn, UrlHosts.HexGroups;
    if UrlHosts.Ipv6("k.com") { UrlHosts.Ipv6Chars("k.com", 'k'); }
  }

  lemma NamesUsable(alabel: string -> bool, h: Hashing)
    ensures Usable(OneTarget(alabel, h), "page") && Usable(OneTarget(alabel, h), "moved")
  {
    UrlIsIdentity(alabel);
    hide UrlValidators.ValidateIdentity, Decimal;
  }

  lemma FieldsInRange()
    ensures GroupIdOk("g") && Hex32(Zeros(32)) && Hex64(Zeros(64)) && ScoreOk("0")
  {
    assert Utf8Length("g") == Utf8Size('g') + Utf8Length("g"[1..]);
  }

  lemma DecisionBinds(alabel: string -> bool, h: Hashing)
    ensures var b := OneTarget(alabel, h);
      DecisionFields(b, VISIT).Ok? && CheckGroup(b, VISIT).Ok? && CheckBinding(b, SOURCE, VISIT).Ok?
  {
    NamesUsable(alabel, h);
    FieldsInRange();
    hide CheckTarget, Origin, GroupIdOk, Zeros, Hex32, Decimal;
  }

  lemma SourceBinds(alabel: string -> bool, h: Hashing)
    ensures var b := OneTarget(alabel, h);
      SourceJobFields(b, SOURCE).Ok? && SourceJobFields(b, SOURCE).value.jobId == h.url(URL)
  {
    DecisionBinds(alabel, h);
    FieldsInRange();
    hide DecisionFields, CheckGroup, CheckBinding, GroupIdOk, Zeros, Hex32, Decimal, ScoreOk;
  }

  lemma Numbers(maximum: nat)
    requires maximum >= 2
    ensures Transcript.TranscriptDecimal("0", maximum, false) == Ok(0)
    ensures Transcript.TranscriptDecimal("1", maximum, true) == Ok(1)
    ensures Transcript.TranscriptDecimal("2", maximum, true) == Ok(2)
  {
    DecimalIsCanonical(0);
    DecimalIsCanonical(1);
    DecimalIsCanonical(2);
    hide CanonicalDecimal;
    assert Decimal(0) == "0" && Decimal(1) == "1" && Decimal(2) == "2";
  }

  lemma DocumentFirst()
    ensures Transcript.DocumentAt([DOCUMENT, REDIRECT]) == 0
    ensures Transcript.DocumentsOf([DOCUMENT, REDIRECT]) == [DOCUMENT, REDIRECT]
  {
    assert [DOCUMENT, REDIRECT][..1] == [DOCUMENT] && [DOCUMENT][..0] == [];
    assert Transcript.DocumentsOf([DOCUMENT]) == [DOCUMENT];
  }

  /** The crawl of the redirected page. */
  function TheCrawl(): Crawl { Crawl(SOURCE, [DOCUMENT, REDIRECT], 1, 0, 2) }

  lemma TranscriptOk(c: Transcript.Context)
    requires c.baseline == "0" && c.generation == "2" && c.requests == [DOCUMENT, REDIRECT] && c.source == "page"
    requires "page" in c.known && "moved" in c.known && "page" in c.usable && "moved" in c.usable
    ensures Transcript.Check(c) == Ok(Transcript.Accepted([DOCUMENT, REDIRECT], 1))
  {
    Numbers(Transcript.MAX_REQUEST_STARTS);
    Numbers(Transcript.MAX_REQUEST_ORDINAL);
    DocumentFirst();
    Transcript.AcceptsExactlyTranscripts(c);
    hide Transcript.TranscriptDecimal, Transcript.DocumentAt, Transcript.DocumentsOf, Transcript.Check;
  }

  lemma BookTargets(alabel: string -> bool, h: Hashing)
    ensures var targets := OneTarget(alabel, h).targets;
      "page" in targets && "moved" in targets && targets["moved"].url == URL
  {
  }

  lemma RunFields(h: Hashing)
    ensures var r := Redirected(h);
      && r.sources == [SOURCE] && r.index == 0 && r.baseline == "0" && r.generation == "2"
      && r.requests == [DOCUMENT, REDIRECT] && r.identities.jobId == h.url(URL) && IdentityFault(r.identities).None?
  {
    FieldsInRange();
    hide Hex32, Zeros, Hex64;
  }

  lemma CrawlAccepted(alabel: string -> bool, h: Hashing)
    ensures CrawlOf(OneTarget(alabel, h), Redirected(h)) == Ok(TheCrawl())
  {
    hide SourceJobFields, Usable, IdentityFault, Redirected, Transcript.Check, Transcript.TranscriptDecimal,
      OneTarget, URL;
    var b, r := OneTarget(alabel, h), Redirected(h);
    RunFields(h);
    SourceBinds(alabel, h);
    NamesUsable(alabel, h);
    BookTargets(alabel, h);
    Numbers(Transcript.MAX_REQUEST_STARTS);
    TranscriptOk(ContextOf(b, r, "page"));
  }

  lemma PageAccepted(alabel: string -> bool, c: Timestamps.Calendar, g: Rendering, p: RawPage)
    requires c(0).Some? && p.html == "" && p.originalHtml == "" && p.contentType == "text/html" && p.statusCode == 200
    requires !p.rendered && p.rule == "" && p.policy == ""
    ensures PageRecord(alabel, c, g, URL, 1, p).Ok?
  {
    hide UrlValidators.ValidateIdentity, ContentTypeFault, Timestamps.FormatLastCrawled, RenderFault, Decimal,
      Utf8Length, URL;
    UrlIsIdentity(alabel);
    TypeText();
    NoText();
    PlainPage(c, g, p);
  }

  lemma PlainPage(c: Timestamps.Calendar, g: Rendering, p: RawPage)
    ensures c(0).Some? ==> Timestamps.FormatLastCrawled(c, 1).Ok?
    ensures !p.rendered && p.originalHtml == "" && p.rule == "" && p.policy == "" ==> RenderFault(g, p).None?
  {
    hide Timestamps.FormatInstant, RuleFault, Hex64;
  }

  lemma NoText()
    ensures Utf8Length("") == 0
  {
  }

  lemma TypeText()
    ensures ContentTypeFault("text/html").None?
  {
    UrlFolding.Utf8AtMost("text/html");
    assert "text/html"[9..] == "";
    hide Utf8Length;
  }

  lemma EmptyLists(b: Book, page: string)
    ensures ListsOk(b, page, OUTPUT)
  {
    hide AcceptDiscovery, ValidUrl;
  }

  lemma TwoAliases()
    ensures AliasList(TheCrawl()) == ["page", "moved"]
  {
    var c := TheCrawl();
    var s := ["page"] + seq(|c.documents|, i requires 0 <= i < |c.documents| => c.documents[i].target);
    assert s == ["page", "page", "moved"];
    assert s[1..] == ["page", "moved"] && s[1..][0] == "page" && s[1..][1..] == ["moved"] && ["moved"][1..] == [];
    assert "page" in s[1..];
    assert "page"[0] != "moved"[0];
    assert Distinct(["moved"]) == ["moved"];
    assert Distinct(["page", "moved"]) == ["page"] + Distinct(["moved"]);
  }

  lemma SharedId(alabel: string -> bool, h: Hashing)
    ensures !DistinctIds(OneTarget(alabel, h).targets, AliasList(TheCrawl()))
  {
    TwoAliases();
    hide AliasList;
    var names := AliasList(TheCrawl());
    assert names[0] in names && names[1] in names && names[0][0] != names[1][0];
  }

  lemma RedirectPage(t: Terms)
    requires "moved" in t.book.targets && t.book.targets["moved"].url == URL && t.calendar(0).Some?
    ensures var c := TheCrawl();
      FinalOf(c).target == "moved" && PageOf(t, c, OUTPUT.page).Ok? && ListsOk(t.book, URL, OUTPUT)
  {
    PageAccepted(t.book.alabel, t.calendar, t.rendering, OUTPUT.page);
    EmptyLists(t.book, URL);
    hide PageRecord, ListsOk, URL;
  }

  /** The output is accepted, whatever the hash and the A-label test, with two aliases of one identifier. */
  lemma OutputAccepted(t: Terms, h: Hashing)
    requires t.book == OneTarget(t.book.alabel, h) && t.run == Redirected(h) && t.calendar(0).Some?
    ensures OutputOk(t, OUTPUT) && !DistinctIds(t.book.targets, AliasList(TheCrawl()))
  {
    hide CrawlOf, PageRecord, AliasList, ListsOk, Redirected, OneTarget, OUTPUT, TheCrawl, CrawlOk, DistinctIds, URL;
    CrawlAccepted(t.book.alabel, h);
    CrawlIsOk(t);
    BookTargets(t.book.alabel, h);
    RedirectPage(t);
    TwoAliases();
    SharedId(t.book.alabel, h);
    var c := TheCrawl();
    CrawlParts(t, c);
    var url := t.book.targets[FinalOf(c).target].url;
    PageUrl(t.book.alabel, t.calendar, t.rendering, url, FinalOf(c).startedAt, OUTPUT.page);
  }

  /** Its alias chunk is refused. */
  lemma AcceptedButNotStaged(t: Terms, o: RawOutput, r: Records, h: Hashing)
    requires OutputOk(t, o) && IsRecords(t, CrawlOf(t.book, t.run).value, o, r)
    requires o == OUTPUT && t.book == OneTarget(t.book.alabel, h) && t.run == Redirected(h) && t.calendar(0).Some?
    ensures !AliasChunkOk(r.aliases, AliasTest(t.book))
  {
    hide OutputOk, IsRecords, CrawlOf, AliasChunkOk, AliasTest, OneTarget, Redirected, OUTPUT, AliasList, DistinctIds;
    OutputAccepted(t, h);
    CrawlAccepted(t.book.alabel, h);
    AliasesPassExactly(t, o, r);
  }
}
