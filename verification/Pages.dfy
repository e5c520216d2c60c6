/** The page record of an output, and the checks of its staged chunks. */
module Pages {
  import opened Outcomes
  import opened Texts
  import opened Timestamps
  import UrlCanonical
  import UrlValidators

  const MAX_PAGE_BLOB_BYTES: nat := 5 * 1024 * 1024
  const MAX_COMBINED_HTML_BYTES: nat := 10 * 1024 * 1024
  const MAX_CONTENT_TYPE_BYTES: nat := 1024
  const MAX_RENDER_RULE_BYTES: nat := 128

  datatype RawPage = RawPage(target: string, html: string, originalHtml: string, contentType: string, statusCode: int,
                             rendered: bool, rule: string, policy: string)

  /** The render policy digest that the run authorizes, and the rules that it enables. */
  datatype Rendering = Rendering(policy: Option<string>, rules: Option<set<string>>)

  datatype Page = Page(url: string, html: string, originalHtml: string, contentType: string, statusCode: string,
                       lastCrawled: string, rendered: string, rule: string, policy: string)

  /** What a page_fields chunk holds. */
  datatype PageFields = PageFields(url: string, contentType: string, statusCode: string, lastCrawled: string,
                                   rendered: string, rule: string, policy: string, publication: string)

  //////////////////////////////////////////////////////////////////////////////
  // Single fields
  //////////////////////////////////////////////////////////////////////////////

  /** Case-insensitive equality with a lower-case letter; the long s counts as s. */
  predicate Matches(c: char, lower: char) {
    c == lower || (Upper(c) && c as int + 32 == lower as int) || (c == '\U{017F}' && lower == 's')
  }

  predicate Reads(s: string, word: string) {
    |word| <= |s| && forall i :: 0 <= i < |word| ==> Matches(s[i], word[i])
  }

  function SkipSpaces(s: string): string {
    if s != "" && s[0] == ' ' then SkipSpaces(s[1..]) else s
  }

  /** Nothing, or a charset parameter with the value utf-8, quoted or not. */
  predicate CharsetOk(s: string) {
    s == ""
    || (var t := SkipSpaces(s);
        && Reads(t, ";")
        && (var u := SkipSpaces(t[1..]);
            && Reads(u, "charset")
            && (var v := SkipSpaces(u[7..]);
                && Reads(v, "=")
                && (var w := SkipSpaces(v[1..]);
                    (|w| == 5 && Reads(w, "utf-8")) || (|w| == 7 && Reads(w, "\"utf-8\""))))))
  }

  function ContentTypeFault(s: string): Option<string> {
    if Utf8Length(s) > MAX_CONTENT_TYPE_BYTES then Some("CONTENT_TYPE_LIMIT")
    else if s == "" || UrlCanonical.Strips(s) || !Reads(s, "text/html") || !CharsetOk(s[9..]) then
      Some("INVALID_CONTENT_TYPE")
    else None
  }

  function RuleFault(s: string): Option<string> {
    if Utf8Length(s) > MAX_RENDER_RULE_BYTES then Some("RENDER_RULE_LIMIT")
    else if s == "" || exists c :: c in s && Control(c) then Some("INVALID_RENDER_RELATION")
    else None
  }

  //////////////////////////////////////////////////////////////////////////////
  // The page record
  //////////////////////////////////////////////////////////////////////////////

  function RenderFault(r: Rendering, p: RawPage): Option<string> {
    if p.rendered then
      if RuleFault(p.rule).Some? then RuleFault(p.rule)
      else if !Hex64(p.policy) then Some("INVALID_RENDER_POLICY_DIGEST")
      else if p.originalHtml == "" then Some("INVALID_RENDER_RELATION")
      else if r.policy != Some(p.policy) then Some("RENDER_POLICY_MISMATCH")
      else if r.rules.None? || p.rule !in r.rules.value then Some("INVALID_RENDER_RELATION")
      else None
    else if p.originalHtml != "" || p.rule != "" || p.policy != "" then Some("INVALID_RENDER_RELATION")
    else None
  }

  /** The page part of output_records, for the final URL and the start of the last document request. */
  function PageRecord(alabel: string -> bool, c: Calendar, r: Rendering, url: string, startedAt: int, p: RawPage):
    Result<Page>
  {
    match UrlValidators.ValidateIdentity(alabel, url)
    case Err(code) => Err(code)
    case Ok(_) =>
      var html, original := Utf8Length(p.html), Utf8Length(p.originalHtml);
      if html > MAX_PAGE_BLOB_BYTES || original > MAX_PAGE_BLOB_BYTES then Err("PAGE_BLOB_LIMIT")
      else if html + original > MAX_COMBINED_HTML_BYTES then Err("COMBINED_HTML_LIMIT")
      else if ContentTypeFault(p.contentType).Some? then Err(ContentTypeFault(p.contentType).value)
      else if !(100 <= p.statusCode <= 399) then Err("STATUS_CODE_RANGE")
      else if RenderFault(r, p).Some? then Err(RenderFault(r, p).value)
      else
        match FormatLastCrawled(c, startedAt)
        case Err(code) => Err(code)
        case Ok(crawled) =>
          Ok(Page(url, p.html, p.originalHtml, p.contentType, Decimal(p.statusCode), crawled,
                  if p.rendered then "true" else "false", p.rule, p.policy))
  }

  //////////////////////////////////////////////////////////////////////////////
  // Chunks
  //////////////////////////////////////////////////////////////////////////////

  predicate StatusOk(s: string) { |s| == 3 && AllDigits(s) && 100 <= Value(s) <= 399 }

  predicate PageFieldsOk(alabel: string -> bool, f: PageFields) {
    && UrlValidators.ValidateIdentity(alabel, f.url).Ok?
    && ContentTypeFault(f.contentType).None?
    && StatusOk(f.statusCode)
    && ParseTimestamp(f.lastCrawled).Some?
    && f.rendered in ["true", "false"]
    && (f.rendered == "false" ==> f.rule == "" && f.policy == "")
    && (f.rendered == "true" ==> RuleFault(f.rule).None? && Hex64(f.policy))
    && Hex64(f.publication)
  }

  /** The check of an html or original_html chunk: its name and its text. */
  predicate BlobOk(kind: string, name: string, text: string) {
    name == kind && Utf8Length(text) <= MAX_PAGE_BLOB_BYTES
  }

  function FieldsOf(p: Page, publication: string): PageFields {
    PageFields(p.url, p.contentType, p.statusCode, p.lastCrawled, p.rendered, p.rule, p.policy, publication)
  }

  lemma StatusText(n: nat)
    requires 100 <= n <= 399
    ensures StatusOk(Decimal(n))
  {
    ValueOfDecimal(n);
    assert |Decimal(n / 100)| == 1 && n / 10 / 10 == n / 100;
    assert |Decimal(n / 10)| == 2 && |Decimal(n)| == 3;
    hide Value;
  }

  /** The three page chunks of an accepted page pass, and its timestamp names the second of its request. */
  lemma PageChunksPass(alabel: string -> bool, c: Calendar, r: Rendering, url: string, startedAt: int, raw: RawPage,
                       publication: string)
    requires PageRecord(alabel, c, r, url, startedAt, raw).Ok? && Hex64(publication)
    ensures var p := PageRecord(alabel, c, r, url, startedAt, raw).value;
      && PageFieldsOk(alabel, FieldsOf(p, publication))
      && BlobOk("html", "html", p.html) && BlobOk("original_html", "original_html", p.originalHtml)
      && Seconds(ParseTimestamp(p.lastCrawled).value) == startedAt / 1000
  {
    hide UrlValidators.ValidateIdentity, Utf8Length, ContentTypeFault, RuleFault, FormatLastCrawled, ParseTimestamp,
      StatusOk, Decimal, Seconds, Hex64;
    LastCrawledNames(c, startedAt);
    StatusText(raw.statusCode);
  }

  /** The combined limit can never be what refuses a page: the single limits imply it. */
  lemma CombinedLimitImplied(alabel: string -> bool, c: Calendar, r: Rendering, url: string, startedAt: int, p: RawPage)
    ensures PageRecord(alabel, c, r, url, startedAt, p) != Err("COMBINED_HTML_LIMIT")
  {
    hide UrlValidators.ParseAuthority, UrlValidators.Prefixed, Utf8Length, ContentTypeFault, RuleFault,
      FormatLastCrawled, Decimal, Hex64;
    OtherCodes(alabel, c, url, startedAt, p);
    hide UrlValidators.ValidateIdentity;
  }

  lemma OtherCodes(alabel: string -> bool, c: Calendar, url: string, startedAt: int, p: RawPage)
    ensures UrlValidators.ValidateIdentity(alabel, url) != Err("COMBINED_HTML_LIMIT")
    ensures FormatLastCrawled(c, startedAt) != Err("COMBINED_HTML_LIMIT")
    ensures ContentTypeFault(p.contentType) != Some("COMBINED_HTML_LIMIT")
    ensures RuleFault(p.rule) != Some("COMBINED_HTML_LIMIT")
  {
    hide UrlValidators.ParseAuthority, UrlValidators.Prefixed, Utf8Length, CharsetOk, Reads, UrlCanonical.Strips,
      FormatInstant;
  }
}
