/** Which pages are recorded, stated by the texts of a grammar and by numbers. */
module PageRules {
  import opened Outcomes
  import opened Texts
  import opened Timestamps
  import opened Pages
  import UrlCanonical
  import UrlRules
  import UrlValidators

  //////////////////////////////////////////////////////////////////////////////
  // Content types
  //////////////////////////////////////////////////////////////////////////////

  function Blanks(n: nat): string { seq(n, i => ' ') }

  /** The word in any case; the long s counts as an s. */
  predicate Folded(s: string, word: string) {
    |s| == |word| && forall i :: 0 <= i < |word| ==>
      || s[i] == word[i]
      || ('a' <= word[i] <= 'z' && s[i] as int == word[i] as int - 0x20)
      || (word[i] == 's' && s[i] as int == 0x17F)
  }

  /** A word in any case, blanks, and then something. */
  ghost predicate Then(s: string, word: string, rest: string -> bool) {
    exists name, n, r :: Folded(name, word) && rest(r) && s == name + (Blanks(n) + r)
  }

  predicate Utf8Name(s: string) { Folded(s, "utf-8") || Folded(s, "\"utf-8\"") }

  ghost predicate Value(s: string) { Then(s, "=", Utf8Name) }

  ghost predicate Charset(s: string) { Then(s, "charset", Value) }

  /** What may follow the type: nothing, or blanks and the one parameter. */
  ghost predicate Parameter(s: string) {
    s == "" || exists n, r :: s == Blanks(n) + r && Then(r, ";", Charset)
  }

  lemma ReadsIs(s: string, word: string)
    ensures Reads(s, word) <==> |word| <= |s| && Folded(s[..|word|], word)
  {
  }

  lemma {:induction false} SkipIs(s: string)
    ensures |SkipSpaces(s)| <= |s| && s == Blanks(|s| - |SkipSpaces(s)|) + SkipSpaces(s)
    ensures SkipSpaces(s) != "" ==> SkipSpaces(s)[0] != ' '
  {
    if s != "" && s[0] == ' ' {
      SkipIs(s[1..]);
      var r := SkipSpaces(s);
      assert s == [' '] + s[1..];
      assert [' '] + Blanks(|s[1..]| - |r|) == Blanks(|s| - |r|);
    } else {
      assert Blanks(0) + s == s;
    }
  }

  lemma {:induction false} SkipBlanks(n: nat, s: string)
    requires s != "" && s[0] != ' '
    ensures SkipSpaces(Blanks(n) + s) == s
  {
    if n == 0 {
      assert Blanks(0) + s == s;
    } else {
      assert (Blanks(n) + s)[1..] == Blanks(n - 1) + s;
      SkipBlanks(n - 1, s);
    }
  }

  /** Reading a word and then skipping blanks accepts what the grammar generates. */
  lemma ReadThen(s: string, word: string, rest: string -> bool)
    requires forall r :: rest(r) ==> r != "" && r[0] != ' '
    ensures Reads(s, word) && rest(SkipSpaces(s[|word|..])) <==> Then(s, word, rest)
  {
    hide Folded, Reads, SkipSpaces, Blanks;
    ReadsIs(s, word);
    if Reads(s, word) && rest(SkipSpaces(s[|word|..])) {
      SkipIs(s[|word|..]);
      assert s == s[..|word|] + s[|word|..];
    }
    if Then(s, word, rest) {
      var name, n, r :| Folded(name, word) && rest(r) && s == name + (Blanks(n) + r);
      FoldedLength(name, word);
      assert s[..|word|] == name && s[|word|..] == Blanks(n) + r;
      SkipBlanks(n, r);
    }
  }

  lemma FoldedLength(s: string, word: string)
    requires Folded(s, word)
    ensures |s| == |word| && (word != "" && word[0] != ' ' ==> s[0] != ' ')
  {
  }

  lemma ThenFirst(word: string, rest: string -> bool)
    requires word != "" && word[0] != ' '
    ensures forall s :: Then(s, word, rest) ==> s != "" && s[0] != ' '
  {
    hide Folded;
    forall s | Then(s, word, rest) ensures s != "" && s[0] != ' ' {
      var name, n, r :| Folded(name, word) && rest(r) && s == name + (Blanks(n) + r);
      FoldedLength(name, word);
      assert s[0] == name[0];
    }
  }

  lemma Utf8NameIs(w: string)
    ensures Utf8Name(w) <==> (|w| == 5 && Reads(w, "utf-8")) || (|w| == 7 && Reads(w, "\"utf-8\""))
    ensures Utf8Name(w) ==> w != "" && w[0] != ' '
  {
    hide Reads;
    ReadsIs(w, "utf-8");
    ReadsIs(w, "\"utf-8\"");
    assert |w| == 5 ==> w[..5] == w;
    assert |w| == 7 ==> w[..7] == w;
  }

  predicate ReadValue(v: string) { Reads(v, "=") && Utf8Name(SkipSpaces(v[1..])) }

  predicate ReadCharset(u: string) { Reads(u, "charset") && ReadValue(SkipSpaces(u[7..])) }

  predicate ReadMark(t: string) { Reads(t, ";") && ReadCharset(SkipSpaces(t[1..])) }

  lemma CharsetIs(s: string)
    ensures CharsetOk(s) <==> Parameter(s)
  {
    hide Folded, Reads, SkipSpaces, Then, Blanks;
    Utf8Names();
    forall v ensures ReadValue(v) <==> Value(v) { ReadThen(v, "=", Utf8Name); }
    ThenFirst("=", Utf8Name);
    forall u ensures ReadCharset(u) <==> Charset(u) { ReadThen(u, "charset", Value); }
    ThenFirst("charset", Value);
    ThenFirst(";", Charset);
    forall t ensures ReadMark(t) <==> Then(t, ";", Charset) { ReadThen(t, ";", Charset); }
    CharsetReads(s);
    SkipIs(s);
    if n, r :| s == Blanks(n) + r && Then(r, ";", Charset) { SkipBlanks(n, r); }
  }

  lemma Utf8Names()
    ensures forall w :: Utf8Name(w) ==> w != "" && w[0] != ' '
  {
    forall w | Utf8Name(w) ensures w != "" && w[0] != ' ' { Utf8NameIs(w); }
  }

  lemma CharsetReads(s: string)
    ensures CharsetOk(s) <==> s == "" || ReadMark(SkipSpaces(s))
  {
    hide Reads, SkipSpaces, Utf8Name;
    if Reads(SkipSpaces(s), ";") {
      ReadsIs(SkipSpaces(s), ";");
      var u := SkipSpaces(SkipSpaces(s)[1..]);
      if Reads(u, "charset") {
        ReadsIs(u, "charset");
        var v := SkipSpaces(u[7..]);
        ReadsIs(v, "=");
        if Reads(v, "=") { Utf8NameIs(SkipSpaces(v[1..])); }
      }
    }
  }

  ghost predicate HtmlType(s: string) {
    exists kind, rest :: Folded(kind, "text/html") && Parameter(rest) && s == kind + rest
  }

  predicate Closed(s: string) { s != "" && !White(s[|s| - 1]) }

  lemma ThenCloses(word: string, rest: string -> bool)
    requires forall r :: rest(r) ==> Closed(r)
    ensures forall s :: Then(s, word, rest) ==> Closed(s)
  {
    hide Folded, White;
    forall s | Then(s, word, rest) ensures Closed(s) {
      var name, n, r :| Folded(name, word) && rest(r) && s == name + (Blanks(n) + r);
      assert s[|s| - 1] == r[|r| - 1];
    }
  }

  lemma ParameterCloses(s: string)
    requires Parameter(s)
    ensures s == "" || Closed(s)
  {
    hide Folded, Then, White, Utf8Name;
    forall w | Utf8Name(w) ensures Closed(w) { NameCloses(w); }
    ThenCloses("=", Utf8Name);
    ThenCloses("charset", Value);
    ThenCloses(";", Charset);
    if n, r :| s == Blanks(n) + r && Then(r, ";", Charset) { assert s[|s| - 1] == r[|r| - 1]; }
  }

  lemma NameCloses(w: string)
    requires Utf8Name(w)
    ensures Closed(w)
  {
  }

  lemma TypeEdges(kind: string, rest: string)
    requires Folded(kind, "text/html") && Parameter(rest)
    ensures !UrlCanonical.Strips(kind + rest)
  {
    hide Parameter;
    ParameterCloses(rest);
    assert (kind + rest)[0] == kind[0];
    if rest == "" { assert kind + rest == kind; }
  }

  /** The content types: at most 1,024 bytes of text/html, alone or with the parameter charset=utf-8. */
  lemma ContentTypeExactly(s: string)
    ensures ContentTypeFault(s).None? <==> Utf8Length(s) <= 1024 && HtmlType(s)
  {
    hide Folded, Reads, CharsetOk, Parameter, UrlCanonical.Strips;
    ReadsIs(s, "text/html");
    if ContentTypeFault(s).None? {
      CharsetIs(s[9..]);
      assert s == s[..9] + s[9..];
    }
    if kind, rest :| Folded(kind, "text/html") && Parameter(rest) && s == kind + rest {
      FoldedLength(kind, "text/html");
      assert s[..9] == kind && s[9..] == rest;
      CharsetIs(rest);
      TypeEdges(kind, rest);
    }
  }

  //////////////////////////////////////////////////////////////////////////////
  // Pages
  //////////////////////////////////////////////////////////////////////////////

  /** A rendered page has its original, a rule of the rendering, and the policy in force; another has none of them. */
  predicate Related(r: Rendering, p: RawPage) {
    if p.rendered then
      && p.originalHtml != "" && Hex64(p.policy) && r.policy == Some(p.policy)
      && r.rules.Some? && p.rule in r.rules.value
      && p.rule != "" && Utf8Length(p.rule) <= 128 && forall c :: c in p.rule ==> !Control(c)
    else p.originalHtml == "" && p.rule == "" && p.policy == ""
  }

  /** Which pages are recorded, and what their records say. */
  lemma PageExactly(alabel: string -> bool, c: Calendar, r: Rendering, url: string, startedAt: int, p: RawPage)
    ensures PageRecord(alabel, c, r, url, startedAt, p).Ok? <==>
      && UrlCanonical.IsCanonical(alabel, url)
      && Utf8Length(p.html) <= 5_242_880 && Utf8Length(p.originalHtml) <= 5_242_880
      && Utf8Length(p.contentType) <= 1024 && HtmlType(p.contentType)
      && 100 <= p.statusCode <= 399 && Related(r, p)
      && 0 <= startedAt < 0x20_0000_0000_0000 && c(startedAt / 1000).Some?
    ensures PageRecord(alabel, c, r, url, startedAt, p).Ok? ==>
      var q := PageRecord(alabel, c, r, url, startedAt, p).value;
      && q.url == url && q.html == p.html && q.originalHtml == p.originalHtml && q.contentType == p.contentType
      && CanonicalDecimal(q.statusCode) == Some(p.statusCode) && ParseTimestamp(q.lastCrawled) == c(startedAt / 1000)
      && q.rendered == (if p.rendered then "true" else "false") && q.rule == p.rule && q.policy == p.policy
  {
    hide UrlValidators.ValidateIdentity, UrlValidators.CanonicalFault, UrlCanonical.IsCanonical,
      UrlCanonical.Canonicalize, Utf8Length, HtmlType,
      ContentTypeFault, FormatInstant, ParseTimestamp, Decimal, CanonicalDecimal, Control, Hex64;
    UrlValidators.ThreeAgree(alabel, url);
    UrlCanonical.FixedIsCanonical(alabel, url);
    ContentTypeExactly(p.contentType);
    if p.statusCode >= 0 { DecimalIsCanonical(p.statusCode); }
    if c(startedAt / 1000).Some? { TimestampRoundTrip(c(startedAt / 1000).value); }
  }

  /** Which page fields pass the check of their chunk. */
  lemma FieldsExactly(alabel: string -> bool, f: PageFields)
    ensures PageFieldsOk(alabel, f) <==>
      && UrlCanonical.IsCanonical(alabel, f.url)
      && Utf8Length(f.contentType) <= 1024 && HtmlType(f.contentType)
      && (exists n: nat :: 100 <= n <= 399 && f.statusCode == Decimal(n))
      && (exists t :: ValidInstant(t) && f.lastCrawled == FormatInstant(t))
      && (|| (f.rendered == "false" && f.rule == "" && f.policy == "")
          || (f.rendered == "true" && Hex64(f.policy) && f.rule != "" && Utf8Length(f.rule) <= 128
              && forall c :: c in f.rule ==> !Control(c)))
      && Hex64(f.publication)
  {
    hide UrlValidators.ValidateIdentity, UrlValidators.CanonicalFault, UrlCanonical.IsCanonical,
      UrlCanonical.Canonicalize, Utf8Length, HtmlType, ContentTypeFault, FormatInstant, ParseTimestamp, Decimal,
      ValidInstant, StatusOk, Control, Hex64;
    UrlValidators.ThreeAgree(alabel, f.url);
    UrlCanonical.FixedIsCanonical(alabel, f.url);
    ContentTypeExactly(f.contentType);
    StatusIs(f.statusCode);
    var read := ParseTimestamp(f.lastCrawled);
    if read.Some? { TimestampExactly(f.lastCrawled, read.value); }
    forall t | ValidInstant(t) && f.lastCrawled == FormatInstant(t) ensures read == Some(t) {
      TimestampExactly(f.lastCrawled, t);
    }
  }

  /** An HTML chunk passes exactly under its own name and with at most five MiB. */
  lemma BlobExactly(kind: string, name: string, text: string, bytes: seq<nat>)
    requires UrlRules.Spelled(text, bytes)
    ensures BlobOk(kind, name, text) <==> name == kind && |bytes| <= 5_242_880
  {
    hide UrlRules.Spelled;
    UrlRules.LengthIs(text, bytes);
  }

  lemma StatusIs(s: string)
    ensures StatusOk(s) <==> exists n: nat :: 100 <= n <= 399 && s == Decimal(n)
  {
    hide Texts.Value, Decimal;
    if StatusOk(s) {
      assert s[0] in s;
      if s[0] == '0' { SmallText(s); }
      DecimalOfValue(s);
    }
    if n: nat :| 100 <= n <= 399 && s == Decimal(n) { StatusText(n); }
  }

  lemma SmallText(s: string)
    requires |s| == 3 && AllDigits(s) && s[0] == '0'
    ensures Texts.Value(s) < 100
  {
    hide Texts.Value;
    ValueStep(s);
    ValueStep(s[..2]);
    ValueStep(s[..2][..1]);
    assert s[..2][..1][..0] == "" && s[..2][..1][0] == '0';
    ValueOfNothing();
  }
}
