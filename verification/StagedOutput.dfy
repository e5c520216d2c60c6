/** The records of a crawl output, and the chunks in which they are staged. */
module StagedOutput {
  import opened Outcomes
  import opened Texts
  import opened Ordering
  import opened Outputs
  import opened ImageManifest
  import opened Policies
  import opened Pages
  import opened Witnesses
  import Timestamps
  import Transcript
  import UrlValidators

  const MAX_ALT_BYTES: nat := 1024

  datatype Image = Image(source: string, alt: string)

  datatype RawOutput = RawOutput(page: RawPage, outlinks: seq<string>, images: seq<Image>, discoveries: seq<Item>)

  datatype Records = Records(page: Page, outlinks: seq<string>, images: seq<Image>, discoveries: seq<Discovery>,
                             aliases: seq<Alias>)

  /** What an output is checked against. */
  datatype Terms = Terms(book: Book, run: Run, calendar: Timestamps.Calendar, rendering: Rendering)

  //////////////////////////////////////////////////////////////////////////////
  // Tests of single items
  //////////////////////////////////////////////////////////////////////////////

  function SourceOf(i: Image): string { i.source }

  predicate ValidUrl(alabel: string -> bool, u: string) {
    UrlValidators.ValidateIdentity(alabel, u).Ok?
  }

  lemma ValidUrlText(alabel: string -> bool, u: string)
    ensures ValidUrl(alabel, u) ==> ShortText(u)
  {
    Utf8AtLeast(u);
    hide UrlValidators.ParseAuthority, UrlValidators.Prefixed;
  }

  /** The canonical URL test of the contract verifier. */
  function UrlTest(alabel: string -> bool): (valid: UrlCheck)
    ensures forall u :: valid(u) <==> ValidUrl(alabel, u)
  {
    assert forall u :: ValidUrl(alabel, u) ==> ShortText(u) by {
      forall u: string ensures ValidUrl(alabel, u) ==> ShortText(u) { ValidUrlText(alabel, u); }
    }
    u => ValidUrl(alabel, u)
  }

  function OutlinkTest(alabel: string -> bool, page: string): string -> bool {
    u => ValidUrl(alabel, u) && u != page
  }

  function ImageTest(alabel: string -> bool): Image -> bool {
    (i: Image) => ValidUrl(alabel, i.source) && Utf8Length(i.alt) <= MAX_ALT_BYTES
  }

  function DiscoveryTest(b: Book): Item -> bool {
    (i: Item) => AcceptDiscovery(b, i).Ok?
  }

  function CompletedTest(b: Book): Completed -> bool {
    (r: Completed) => CompletedOk(b, r)
  }

  function AliasTest(b: Book): Alias -> bool {
    (a: Alias) => AliasOk(b, a)
  }

  //////////////////////////////////////////////////////////////////////////////
  // The records of an output
  //////////////////////////////////////////////////////////////////////////////

  /** One of each, at its last place. */
  function Distinct(s: seq<string>): seq<string> {
    if s == [] then [] else (if s[0] in s[1..] then [] else [s[0]]) + Distinct(s[1..])
  }

  lemma {:induction false} DistinctOk(s: seq<string>)
    ensures forall x :: x in Distinct(s) <==> x in s
    ensures forall i, j :: 0 <= i < j < |Distinct(s)| ==> Distinct(s)[i] != Distinct(s)[j]
    ensures s != [] ==> Distinct(s) != []
  {
    if s != [] {
      var rest := s[1..];
      DistinctOk(rest);
      assert forall x :: x in s <==> x == s[0] || x in rest;
      if s[0] !in rest {
        assert forall i :: 0 <= i < |Distinct(rest)| ==> Distinct(rest)[i] in Distinct(rest);
      }
    }
  }

  /** The names of the aliases: the source target and the targets of the documents. */
  function AliasList(c: Crawl): seq<string> {
    Distinct([c.source.target] + seq(|c.documents|, i requires 0 <= i < |c.documents| => c.documents[i].target))
  }

  function FinalOf(c: Crawl): Transcript.Request
    requires c.documents != []
  {
    c.documents[|c.documents| - 1]
  }

  /** The crawl is accepted, its depth is a count, and the names it uses are known. */
  ghost predicate CrawlOk(t: Terms, c: Crawl) {
    && CrawlOf(t.book, t.run) == Ok(c) && c.documents != [] && FinalOf(c).target in t.book.targets
    && c.source.depth >= 0
    && forall n :: n in AliasList(c) ==> n in t.book.targets
  }

  lemma SourceDepth(t: Terms, c: Crawl)
    requires CrawlOf(t.book, t.run) == Ok(c)
    ensures Exact(c.source.depth)
  {
    hide Transcript.Check, Transcript.Interval, CheckTarget, Origin, CheckGroup, DecisionDigest, ScoreOk, GroupIdOk,
      Hex32, Hex64, CheckBinding;
  }

  lemma CrawlIsOk(t: Terms)
    requires CrawlOf(t.book, t.run).Ok?
    ensures CrawlOk(t, CrawlOf(t.book, t.run).value)
    ensures forall n :: n in AliasList(CrawlOf(t.book, t.run).value) ==> Usable(t.book, n)
  {
    hide CrawlOf, CheckTarget, Origin;
    CrawlKnown(t.book, t.run);
    var c := CrawlOf(t.book, t.run).value;
    SourceDepth(t, c);
    var names := [c.source.target] + seq(|c.documents|, i requires 0 <= i < |c.documents| => c.documents[i].target);
    DistinctOk(names);
    forall n | n in names ensures Usable(t.book, n) {
      var i :| 0 <= i < |names| && names[i] == n;
      if i > 0 { assert c.documents[i - 1] in c.documents; }
    }
    assert FinalOf(c) in c.documents;
    hide Distinct;
  }

  function PageOf(t: Terms, c: Crawl, page: RawPage): Result<Page>
    requires c.documents != [] && FinalOf(c).target in t.book.targets
  {
    if page.target != FinalOf(c).target then Err("OUTPUT_CONTEXT_MISMATCH")
    else
      var url := t.book.targets[FinalOf(c).target].url;
      PageRecord(t.book.alabel, t.calendar, t.rendering, url, FinalOf(c).startedAt, page)
  }

  /** Which lists are acceptable; their order plays no part. */
  ghost predicate ListsOk(b: Book, page: string, o: RawOutput) {
    && Acceptable(multiset(o.outlinks), Itself, OutlinkTest(b.alabel, page), 256)
    && Acceptable(multiset(o.images), SourceOf, ImageTest(b.alabel), 64)
    && Acceptable(multiset(o.discoveries), JobOf(b), DiscoveryTest(b), 128)
  }

  /** Which outputs are accepted: the crawl, its page, the lists, and at most five aliases. */
  ghost predicate OutputOk(t: Terms, o: RawOutput) {
    CrawlOf(t.book, t.run).Ok?
    && (var c := CrawlOf(t.book, t.run).value;
        && CrawlOk(t, c) && PageOf(t, c, o.page).Ok?
        && ListsOk(t.book, PageOf(t, c, o.page).value.url, o) && |AliasList(c)| <= 5)
  }

  /** One record for each item in order. */
  ghost predicate Accepts(b: Book, items: seq<Item>, records: seq<Discovery>) {
    |records| == |items| && forall k :: 0 <= k < |items| ==> AcceptDiscovery(b, items[k]) == Ok(records[k])
  }

  ghost predicate IsRecords(t: Terms, c: Crawl, o: RawOutput, r: Records)
    requires CrawlOk(t, c)
  {
    && PageOf(t, c, o.page) == Ok(r.page)
    && CanonicalOf(r.outlinks, o.outlinks, Itself) && CanonicalOf(r.images, o.images, SourceOf)
    && Accepts(t.book, SortByKey(o.discoveries, JobOf(t.book)), r.discoveries)
    && r.aliases == AliasRecords(AliasList(c), t.book.targets, c.source.depth)
  }

  /** Sorting gives the one canonical list. */
  lemma SortedIsCanonical<T>(r: seq<T>, items: seq<T>, key: T -> string)
    requires CanonicalOf(r, items, key)
    ensures r == SortByKey(items, key)
  {
    hide Ascending, DistinctKeys, SortByKey, NotDescending;
    SortByKeyOk(items, key);
    AscendingDistinct(r, key);
    SortedAscends(SortByKey(items, key), key);
    AscendingUnique(r, SortByKey(items, key), key);
  }

  /** The records of accepted discoveries. */
  method DiscoveryRecords(b: Book, items: seq<Item>) returns (r: seq<Discovery>)
    requires forall i :: i in items ==> AcceptDiscovery(b, i).Ok?
    ensures Accepts(b, items, r)
  {
    hide AcceptDiscovery;
    r := [];
    for n := 0 to |items|
      invariant |r| == n && forall k :: 0 <= k < n ==> AcceptDiscovery(b, items[k]) == Ok(r[k])
    {
      assert items[n] in items;
      r := r + [AcceptDiscovery(b, items[n]).value];
    }
  }

  /** output_records */
  method OutputRecords(t: Terms, o: RawOutput) returns (r: Result<Records>)
    ensures r.Ok? <==> OutputOk(t, o)
    ensures r.Ok? ==> var c := CrawlOf(t.book, t.run).value; IsRecords(t, c, o, r.value)
  {
    hide Acceptable, CanonicalOf, CrawlOf, CrawlOk, PageOf, Accepts, AliasList, AliasRecords, SortByKey;
    var crawl := CrawlOf(t.book, t.run);
    if crawl.Err? {
      return Err(crawl.code);
    }
    var c := crawl.value;
    CrawlIsOk(t);
    CrawlParts(t, c);
    var page := PageOf(t, c, o.page);
    if page.Err? {
      return Err(page.code);
    }
    var outlinks := CanonicalList(o.outlinks, Itself, OutlinkTest(t.book.alabel, page.value.url), MAX_OUTLINKS);
    if outlinks.Err? {
      return Err(outlinks.code);
    }
    var images := CanonicalList(o.images, SourceOf, ImageTest(t.book.alabel), MAX_IMAGES);
    if images.Err? {
      return Err(images.code);
    }
    var discoveries := CanonicalList(o.discoveries, JobOf(t.book), DiscoveryTest(t.book), MAX_DISCOVERIES);
    if discoveries.Err? {
      return Err(discoveries.code);
    }
    var items := discoveries.value;
    SortedIsCanonical(items, o.discoveries, JobOf(t.book));
    ElementsOf(items, o.discoveries, JobOf(t.book), DiscoveryTest(t.book), MAX_DISCOVERIES);
    TestedAccepted(t.book, items);
    var records := DiscoveryRecords(t.book, items);
    var names := AliasList(c);
    if |names| > MAX_ALIASES {
      return Err("ALIAS_COUNT_LIMIT");
    }
    var aliases := AliasRecords(names, t.book.targets, c.source.depth);
    return Ok(Records(page.value, outlinks.value, images.value, records, aliases));
  }

  /** What the crawl of an output gives its records. */
  lemma CrawlParts(t: Terms, c: Crawl)
    requires CrawlOk(t, c)
    ensures c.documents != [] && FinalOf(c).target in t.book.targets && c.source.depth >= 0
    ensures forall n :: n in AliasList(c) ==> n in t.book.targets
  {
    hide AliasList, CrawlOf;
  }

  lemma TestedAccepted(b: Book, items: seq<Item>)
    requires forall i :: i in items ==> DiscoveryTest(b)(i)
    ensures forall i :: i in items ==> AcceptDiscovery(b, i).Ok?
  {
    hide AcceptDiscovery;
  }

  lemma ElementsOf<T>(r: seq<T>, items: seq<T>, key: T -> string, valid: T -> bool, max: nat)
    requires CanonicalOf(r, items, key) && Acceptable(multiset(items), key, valid, max)
    ensures Ascending(r, key) && |r| <= max && forall x :: x in r ==> valid(x)
  {
    hide DistinctKeys, Ascending;
    assert |multiset(r)| == |r|;
    forall x | x in r ensures valid(x) { assert x in multiset(r); }
  }

  /** Rearranging the lists changes neither whether an output is accepted nor its records. */
  lemma OutputOrderIrrelevant(t: Terms, a: RawOutput, o: RawOutput, ra: Records, ro: Records)
    requires a.page == o.page && multiset(a.outlinks) == multiset(o.outlinks)
    requires multiset(a.images) == multiset(o.images) && multiset(a.discoveries) == multiset(o.discoveries)
    ensures OutputOk(t, a) <==> OutputOk(t, o)
    ensures OutputOk(t, a) ==>
      var c := CrawlOf(t.book, t.run).value; IsRecords(t, c, a, ra) && IsRecords(t, c, o, ro) ==> ra == ro
  {
    hide Acceptable, CanonicalOf, CrawlOf, PageOf, AliasList, AliasRecords, SortByKey, AcceptDiscovery, CrawlOk;
    if OutputOk(t, a) {
      var c := CrawlOf(t.book, t.run).value;
      CrawlParts(t, c);
      if IsRecords(t, c, a, ra) && IsRecords(t, c, o, ro) {
        SameRecords(t, c, a, o, ra, ro);
      }
    }
  }

  lemma SameRecords(t: Terms, c: Crawl, a: RawOutput, o: RawOutput, ra: Records, ro: Records)
    requires CrawlOk(t, c) && a.page == o.page && multiset(a.outlinks) == multiset(o.outlinks)
    requires multiset(a.images) == multiset(o.images) && multiset(a.discoveries) == multiset(o.discoveries)
    requires Acceptable(multiset(a.discoveries), JobOf(t.book), DiscoveryTest(t.book), MAX_DISCOVERIES)
    requires IsRecords(t, c, a, ra) && IsRecords(t, c, o, ro)
    ensures ra == ro
  {
    hide Acceptable, Ascending, CrawlOf, PageOf, AliasList, AliasRecords, SortByKey, AcceptDiscovery;
    AscendingUnique(ra.outlinks, ro.outlinks, Itself);
    AscendingUnique(ra.images, ro.images, SourceOf);
    SameSorted(a.discoveries, o.discoveries, JobOf(t.book), DiscoveryTest(t.book), MAX_DISCOVERIES);
    assert ra.discoveries == ro.discoveries;
  }

  lemma SameSorted<T>(a: seq<T>, o: seq<T>, key: T -> string, valid: T -> bool, max: nat)
    requires multiset(a) == multiset(o) && Acceptable(multiset(a), key, valid, max)
    ensures SortByKey(a, key) == SortByKey(o, key) && Ascending(SortByKey(a, key), key)
  {
    hide DistinctKeys, SortByKey, Ascending, NotDescending;
    SortByKeyOk(a, key);
    SortByKeyOk(o, key);
    SortedAscends(SortByKey(a, key), key);
    SortedAscends(SortByKey(o, key), key);
    AscendingUnique(SortByKey(a, key), SortByKey(o, key), key);
  }

  //////////////////////////////////////////////////////////////////////////////
  // Staging
  //////////////////////////////////////////////////////////////////////////////

  /** Every chunk of a list passes at its ordinal. */
  ghost predicate ListPasses<T>(s: seq<T>, key: T -> string, valid: T -> bool, chunks: nat) {
    forall i :: 0 <= i < |Chunks(s)| ==> ChunkOk(i, Chunks(s)[i], key, valid, chunks, 64)
  }

  method CheckList<T>(s: seq<T>, key: T -> string, valid: T -> bool, chunks: nat) returns (ok: bool)
    ensures ok <==> ListPasses(s, key, valid, chunks)
  {
    hide Chunks, ChunkOk;
    var parts := Chunks(s);
    for i := 0 to |parts|
      invariant forall k :: 0 <= k < i ==> ChunkOk(k, parts[k], key, valid, chunks, MAX_CHUNK)
    {
      ok := ValidateChunk(i, parts[i], key, valid, chunks, MAX_CHUNK);
      if !ok {
        return false;
      }
    }
    return true;
  }

  function SourcesOf(images: seq<Image>): seq<string> {
    seq(|images|, i requires 0 <= i < |images| => images[i].source)
  }

  /** The one record of the image_manifest chunk; the count is decimal text. */
  ghost predicate ManifestPasses(b: Book, publication: string, page: string, count: string, text: string) {
    CanonicalDecimal(count).Some? && CanonicalDecimal(count).value <= MAX_EXACT_INTEGER
    && ManifestOk(UrlTest(b.alabel), publication, page, CanonicalDecimal(count).value, text)
  }

  /** The checks of all chunks but the aliases. */
  ghost predicate OthersPass(b: Book, publication: string, r: Records, completed: seq<Completed>)
    requires Bytes(r.page.url) && forall s :: s in SourcesOf(r.images) ==> Bytes(s)
  {
    var sources := SourcesOf(r.images);
    && PageFieldsOk(b.alabel, FieldsOf(r.page, publication))
    && BlobOk("html", "html", r.page.html) && BlobOk("original_html", "original_html", r.page.originalHtml)
    && ListPasses(r.outlinks, Itself, UrlTest(b.alabel), 4)
    && ListPasses(completed, CompletedKey, CompletedTest(b), 2)
    && (r.images != [] ==> ChunkOk(0, r.images, SourceOf, ImageTest(b.alabel), 1, 64))
    && ManifestPasses(b, publication, r.page.url, Decimal(|sources|),
                      ManifestJson(ImageKeys(publication, r.page.url, sources)))
  }

  /** stage_chunks_for_output, for texts that are their own bytes */
  method StageOutput(b: Book, publication: string, r: Records, completed: seq<Completed>) returns (ok: bool)
    requires Bytes(r.page.url) && forall s :: s in SourcesOf(r.images) ==> Bytes(s)
    ensures ok <==> OthersPass(b, publication, r, completed) && AliasChunkOk(r.aliases, AliasTest(b))
  {
    hide AliasChunkOk, PageFieldsOk, BlobOk, ListPasses, ChunkOk, ManifestOk, UrlTest, Chunks;
    var page := r.page;
    if !PageFieldsOk(b.alabel, FieldsOf(page, publication)) || !BlobOk("html", "html", page.html)
       || !BlobOk("original_html", "original_html", page.originalHtml)
    {
      return false;
    }
    ok := CheckList(r.outlinks, Itself, UrlTest(b.alabel), 4);
    if !ok {
      return false;
    }
    ok := CheckList(completed, CompletedKey, CompletedTest(b), 2);
    if !ok {
      return false;
    }
    ok := CheckAliases(b, r.aliases);
    if !ok {
      return false;
    }
    if r.images != [] {
      ok := ValidateChunk(0, r.images, SourceOf, ImageTest(b.alabel), 1, MAX_IMAGES);
      if !ok {
        return false;
      }
    }
    var sources := SourcesOf(r.images);
    var count, text := CanonicalDecimal(Decimal(|sources|)), ManifestJson(ImageKeys(publication, page.url, sources));
    if count.None? || count.value > MAX_EXACT_INTEGER {
      return false;
    }
    ok := ValidateManifest(UrlTest(b.alabel), publication, page.url, count.value, text);
  }

  /** The check of the alias chunk: each record, their order, and one depth. */
  method CheckAliases(b: Book, records: seq<Alias>) returns (ok: bool)
    ensures ok <==> AliasChunkOk(records, AliasTest(b))
  {
    hide ChunkOk;
    for n := 0 to |records|
      invariant forall k :: 0 <= k < n ==> records[k].depth == records[0].depth
    {
      if records[n].depth != records[0].depth {
        assert records[n] in records && records[0] in records;
        return false;
      }
    }
    ok := ValidateChunk(0, records, AliasKey, AliasTest(b), 1, MAX_ALIASES);
  }

  //////////////////////////////////////////////////////////////////////////////
  // Which accepted outputs can be staged
  //////////////////////////////////////////////////////////////////////////////

  /** What complete_discovery_records returns. */
  ghost predicate Completes(b: Book, items: seq<Item>, completed: seq<Completed>) {
    |completed| == |items| && forall k :: 0 <= k < |items| ==> CompleteFields(b, items[k]) == Ok(completed[k])
  }

  /** Completion succeeds on the discoveries of an accepted output, and each staged record carries the accepted one. */
  lemma CompletionCarries(t: Terms, o: RawOutput, r: Records, completed: seq<Completed>)
    requires OutputOk(t, o) && IsRecords(t, CrawlOf(t.book, t.run).value, o, r)
    ensures forall i :: i in o.discoveries ==> CompleteFields(t.book, i).Ok?
    ensures Completes(t.book, SortByKey(o.discoveries, JobOf(t.book)), completed) ==>
      |completed| == |r.discoveries| && forall k :: 0 <= k < |completed| ==> completed[k].core == r.discoveries[k]
  {
    hide CrawlOf, CrawlOk, PageOf, DistinctKeys, SortByKey, AcceptDiscovery, CompleteFields, CanonicalOf, AliasRecords,
      AliasList, CompletedOk;
    forall i | i in o.discoveries ensures CompleteFields(t.book, i).Ok? {
      assert i in multiset(o.discoveries) && DiscoveryTest(t.book)(i);
      AcceptedCompletes(t.book, i);
    }
    var items := SortByKey(o.discoveries, JobOf(t.book));
    if Completes(t.book, items, completed) {
      forall k | 0 <= k < |items| ensures completed[k].core == r.discoveries[k] {
        AcceptedCompletes(t.book, items[k]);
      }
    }
  }

  /** The staged records ascend, and each passes. */
  lemma CompletedInOrder(b: Book, items: seq<Item>, completed: seq<Completed>)
    requires Completes(b, items, completed) && Ascending(items, JobOf(b))
    ensures Ascending(completed, CompletedKey) && forall r :: r in completed ==> CompletedTest(b)(r)
  {
    hide AcceptDiscovery, CompleteFields, CompletedOk, Less;
    forall k | 0 <= k < |items|
      ensures CompletedOk(b, completed[k]) && CompletedKey(completed[k]) == JobOf(b)(items[k])
    {
      AcceptedCompletes(b, items[k]);
    }
  }

  lemma ListOf<T>(s: seq<T>, key: T -> string, valid: T -> bool, chunks: nat)
    requires Ascending(s, key) && (forall x :: x in s ==> valid(x)) && |s| <= 64 * chunks
    ensures ListPasses(s, key, valid, chunks)
  {
    hide Ascending, ChunkOk, Chunks;
    forall i | 0 <= i < |Chunks(s)| ensures ChunkOk(i, Chunks(s)[i], key, valid, chunks, MAX_CHUNK) {
      ChunksPass(s, key, valid, chunks, i);
    }
  }

  lemma OutlinksPass(b: Book, page: string, raw: seq<string>, outlinks: seq<string>)
    requires CanonicalOf(outlinks, raw, Itself)
    requires Acceptable(multiset(raw), Itself, OutlinkTest(b.alabel, page), MAX_OUTLINKS)
    ensures ListPasses(outlinks, Itself, UrlTest(b.alabel), 4)
  {
    hide Acceptable, CanonicalOf, Ascending, ListPasses, ValidUrl;
    ElementsOf(outlinks, raw, Itself, OutlinkTest(b.alabel, page), MAX_OUTLINKS);
    ListOf(outlinks, Itself, UrlTest(b.alabel), 4);
  }

  lemma DiscoveriesPass(b: Book, raw: seq<Item>, completed: seq<Completed>)
    requires Acceptable(multiset(raw), JobOf(b), DiscoveryTest(b), MAX_DISCOVERIES)
    requires Completes(b, SortByKey(raw, JobOf(b)), completed)
    ensures ListPasses(completed, CompletedKey, CompletedTest(b), 2)
  {
    SameSorted(raw, raw, JobOf(b), DiscoveryTest(b), MAX_DISCOVERIES);
    SortByKeyOk(raw, JobOf(b));
    SameLength(SortByKey(raw, JobOf(b)), raw);
    assert |multiset(raw)| == |raw|;
    hide Acceptable, Ascending, ListPasses, SortByKey, NotDescending, CompleteFields, DiscoveryTest;
    CompletedInOrder(b, SortByKey(raw, JobOf(b)), completed);
    ListOf(completed, CompletedKey, CompletedTest(b), 2);
  }

  lemma ImageChunk(images: seq<Image>, valid: Image -> bool)
    requires Ascending(images, SourceOf) && |images| <= MAX_IMAGES && forall x :: x in images ==> valid(x)
    ensures images != [] ==> ChunkOk(0, images, SourceOf, valid, 1, MAX_IMAGES)
  {
    hide Ascending;
  }

  lemma ImageSources(alabel: string -> bool, images: seq<Image>)
    requires Ascending(images, SourceOf) && forall x :: x in images ==> ImageTest(alabel)(x)
    ensures SourceList(UrlTest(alabel), SourcesOf(images)) && |SourcesOf(images)| == |images|
  {
    hide ValidUrl, Less;
    var sources := SourcesOf(images);
    forall s | s in sources ensures ValidUrl(alabel, s) {
      var i :| 0 <= i < |sources| && sources[i] == s;
      assert images[i] in images;
    }
    forall i, j | 0 <= i < j < |sources| ensures Less(Itself(sources[i]), Itself(sources[j])) {
      assert Less(SourceOf(images[i]), SourceOf(images[j]));
    }
  }

  /** The image chunk and the manifest pass, and the manifest stays below its limit. */
  lemma ImagesPass(b: Book, publication: string, page: string, raw: seq<Image>, images: seq<Image>)
    requires CanonicalOf(images, raw, SourceOf)
    requires Acceptable(multiset(raw), SourceOf, ImageTest(b.alabel), MAX_IMAGES)
    requires ValidUrl(b.alabel, page) && Hex64(publication)
    ensures images != [] ==> ChunkOk(0, images, SourceOf, ImageTest(b.alabel), 1, MAX_IMAGES)
    ensures var sources := SourcesOf(images);
      && Bytes(page) && (forall s :: s in sources ==> Bytes(s))
      && var text := ManifestJson(ImageKeys(publication, page, sources));
         ManifestPasses(b, publication, page, Decimal(|sources|), text) && Utf8Length(text) < MAX_MANIFEST_BYTES
  {
    hide Acceptable, CanonicalOf, Ascending, ChunkOk, ValidUrl, Bytes, Hex64, ManifestOk, ManifestJson, ImageKeys,
      SourceList, SourcesOf, Decimal, CanonicalDecimal;
    ElementsOf(images, raw, SourceOf, ImageTest(b.alabel), MAX_IMAGES);
    ImageChunk(images, ImageTest(b.alabel));
    ImageSources(b.alabel, images);
    SourceBytes(UrlTest(b.alabel), SourcesOf(images));
    ValidUrlText(b.alabel, page);
    BuiltManifestPasses(UrlTest(b.alabel), publication, page, SourcesOf(images));
    DecimalIsCanonical(|SourcesOf(images)|);
  }

  /** Every chunk of an accepted output but the aliases passes. */
  lemma OthersAlwaysPass(t: Terms, o: RawOutput, r: Records, completed: seq<Completed>, publication: string)
    requires OutputOk(t, o) && IsRecords(t, CrawlOf(t.book, t.run).value, o, r) && Hex64(publication)
    requires Completes(t.book, SortByKey(o.discoveries, JobOf(t.book)), completed)
    ensures Bytes(r.page.url) && forall s :: s in SourcesOf(r.images) ==> Bytes(s)
    ensures OthersPass(t.book, publication, r, completed)
  {
    hide CrawlOf, CrawlOk, Acceptable, SortByKey, CanonicalOf, Completes, AliasRecords, AliasList, Bytes, Hex64,
      ListPasses, ChunkOk, ManifestPasses, ManifestJson, ImageKeys, PageRecord, PageFieldsOk, BlobOk, Decimal;
    var c := CrawlOf(t.book, t.run).value;
    CrawlParts(t, c);
    var final, url := FinalOf(c), t.book.targets[FinalOf(c).target].url;
    PageChunksPass(t.book.alabel, t.calendar, t.rendering, url, final.startedAt, o.page, publication);
    PageUrl(t.book.alabel, t.calendar, t.rendering, url, final.startedAt, o.page);
    OutlinksPass(t.book, r.page.url, o.outlinks, r.outlinks);
    DiscoveriesPass(t.book, o.discoveries, completed);
    ImagesPass(t.book, publication, r.page.url, o.images, r.images);
  }

  lemma PageUrl(alabel: string -> bool, c: Timestamps.Calendar, g: Rendering, url: string, startedAt: int, p: RawPage)
    requires PageRecord(alabel, c, g, url, startedAt, p).Ok?
    ensures PageRecord(alabel, c, g, url, startedAt, p).value.url == url && ValidUrl(alabel, url)
  {
    hide UrlValidators.ValidateIdentity, RenderFault, ContentTypeFault, Utf8Length,
      Timestamps.FormatLastCrawled, Decimal;
  }

  /** The target names have different URL identifiers. */
  ghost predicate DistinctIds(targets: map<string, Target>, names: seq<string>) {
    forall n, m :: n in names && m in names && n != m && n in targets && m in targets ==>
      targets[n].urlId != targets[m].urlId
  }

  lemma IdsByPlace(targets: map<string, Target>, names: seq<string>)
    requires forall i, j :: 0 <= i < j < |names| ==> names[i] != names[j]
    requires forall n :: n in names ==> n in targets
    ensures DistinctIds(targets, names) <==>
      forall i, j :: 0 <= i < j < |names| ==> targets[names[i]].urlId != targets[names[j]].urlId
  {
    if forall i, j :: 0 <= i < j < |names| ==> targets[names[i]].urlId != targets[names[j]].urlId {
      forall n, m | n in names && m in names && n != m ensures targets[n].urlId != targets[m].urlId {
        var i :| 0 <= i < |names| && names[i] == n;
        var j :| 0 <= j < |names| && names[j] == m;
        assert i < j || j < i;
      }
    }
  }

  lemma AliasIdentified(b: Book, name: string, depth: nat)
    requires Usable(b, name) && Exact(depth)
    ensures AliasTest(b)(AliasOf(b.targets, depth, name))
  {
    hide UrlValidators.ValidateIdentity, Hex64;
  }

  /** The alias chunk of an accepted output passes if and only if its aliases have different URL identifiers. */
  lemma AliasesPassExactly(t: Terms, o: RawOutput, r: Records)
    requires OutputOk(t, o) && IsRecords(t, CrawlOf(t.book, t.run).value, o, r)
    ensures AliasChunkOk(r.aliases, AliasTest(t.book)) <==>
      DistinctIds(t.book.targets, AliasList(CrawlOf(t.book, t.run).value))
  {
    hide CrawlOf, PageOf, ListsOk, CanonicalOf, Accepts, AliasRecords, AliasChunkOk, Usable, Distinct, DistinctIds,
      AliasTest;
    var c := CrawlOf(t.book, t.run).value;
    var names := AliasList(c);
    CrawlIsOk(t);
    SourceDepth(t, c);
    DistinctOk([c.source.target] + seq(|c.documents|, i requires 0 <= i < |c.documents| => c.documents[i].target));
    forall n | n in names ensures AliasTest(t.book)(AliasOf(t.book.targets, c.source.depth, n)) {
      AliasIdentified(t.book, n, c.source.depth);
    }
    hide AliasList, CrawlOk;
    AliasChunkPasses(names, t.book.targets, c.source.depth, AliasTest(t.book));
    IdsByPlace(t.book.targets, names);
  }

  /** Staging an accepted output succeeds if and only if its aliases have different URL identifiers; nothing else
      that is staged can be refused. */
  lemma StagingPasses(t: Terms, o: RawOutput, r: Records, completed: seq<Completed>, publication: string)
    requires OutputOk(t, o) && IsRecords(t, CrawlOf(t.book, t.run).value, o, r) && Hex64(publication)
    requires Completes(t.book, SortByKey(o.discoveries, JobOf(t.book)), completed)
    ensures Bytes(r.page.url) && forall s :: s in SourcesOf(r.images) ==> Bytes(s)
    ensures OthersPass(t.book, publication, r, completed)
    ensures OthersPass(t.book, publication, r, completed) && AliasChunkOk(r.aliases, AliasTest(t.book)) <==>
      DistinctIds(t.book.targets, AliasList(CrawlOf(t.book, t.run).value))
  {
    hide OthersPass, AliasChunkOk, IsRecords, OutputOk, CrawlOf, Completes, Bytes, DistinctIds, AliasList;
    OthersAlwaysPass(t, o, r, completed, publication);
    AliasesPassExactly(t, o, r);
  }
}
