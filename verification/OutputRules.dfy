/** Which outputs are accepted, list by list. */
module OutputRules {
  import opened Outcomes
  import opened Texts
  import opened Outputs
  import opened ImageManifest
  import opened Policies
  import opened PolicyRules
  import opened Pages
  import opened Witnesses
  import opened StagedOutput
  import UrlCanonical
  import UrlValidators

  /** At most so many, all permitted, and no two with one key. */
  ghost predicate Listed<T>(s: seq<T>, key: T -> string, permitted: T -> bool, max: nat) {
    && |s| <= max && (forall x :: x in s ==> permitted(x))
    && forall i, j :: 0 <= i < j < |s| ==> key(s[i]) != key(s[j])
  }

  lemma ListedIs<T>(s: seq<T>, key: T -> string, valid: T -> bool, permitted: T -> bool, max: nat)
    requires forall x :: valid(x) <==> permitted(x)
    ensures Acceptable(multiset(s), key, valid, max) <==> Listed(s, key, permitted, max)
  {
    hide DistinctKeys;
    DistinctPairs(s, key);
    assert forall x :: x in s <==> x in multiset(s);
  }

  /** A canonical URL other than that of the page. */
  ghost predicate Outlink(b: Book, url: string, u: string) { UrlCanonical.IsCanonical(b.alabel, u) && u != url }

  /** An image under a canonical URL, with at most 1,024 bytes of text. */
  ghost predicate Pictured(b: Book, i: Image) {
    UrlCanonical.IsCanonical(b.alabel, i.source) && Utf8Length(i.alt) <= 1024
  }

  ghost predicate ListsFit(b: Book, url: string, o: RawOutput) {
    && Listed(o.outlinks, u => u, u => Outlink(b, url, u), 256)
    && Listed(o.images, (i: Image) => i.source, i => Pictured(b, i), 64)
    && Listed(o.discoveries, JobOf(b), (i: Item) => Decided(b, i) && ScoreOk(i.score), 128)
  }

  lemma UrlIs(alabel: string -> bool, u: string)
    ensures ValidUrl(alabel, u) <==> UrlCanonical.IsCanonical(alabel, u)
  {
    hide UrlValidators.ValidateIdentity, UrlValidators.CanonicalFault, UrlCanonical.Canonicalize;
    UrlValidators.ThreeAgree(alabel, u);
    UrlCanonical.FixedIsCanonical(alabel, u);
  }

  lemma ListsExactly(b: Book, url: string, o: RawOutput)
    ensures ListsOk(b, url, o) <==> ListsFit(b, url, o)
  {
    hide Acceptable, Listed, ValidUrl, UrlCanonical.IsCanonical, AcceptDiscovery, Decided, ScoreOk;
    forall u ensures OutlinkTest(b.alabel, url)(u) <==> Outlink(b, url, u) { UrlIs(b.alabel, u); }
    ListedIs(o.outlinks, Itself, OutlinkTest(b.alabel, url), u => Outlink(b, url, u), 256);
    SameKeys(o.outlinks, Itself, u => u, u => Outlink(b, url, u), 256);
    forall i: Image ensures ImageTest(b.alabel)(i) <==> Pictured(b, i) { UrlIs(b.alabel, i.source); }
    ListedIs(o.images, SourceOf, ImageTest(b.alabel), i => Pictured(b, i), 64);
    SameKeys(o.images, SourceOf, (i: Image) => i.source, i => Pictured(b, i), 64);
    forall i: Item ensures DiscoveryTest(b)(i) <==> Decided(b, i) && ScoreOk(i.score) { AcceptExactly(b, i); }
    ListedIs(o.discoveries, JobOf(b), DiscoveryTest(b), (i: Item) => Decided(b, i) && ScoreOk(i.score), 128);
  }

  lemma SameKeys<T>(s: seq<T>, key: T -> string, other: T -> string, permitted: T -> bool, max: nat)
    requires forall x :: key(x) == other(x)
    ensures Listed(s, key, permitted, max) <==> Listed(s, other, permitted, max)
  {
  }

  /** The targets that a crawl gives names to. */
  ghost function Names(c: Crawl): set<string> { {c.source.target} + set d | d in c.documents :: d.target }

  lemma {:induction false} SetSize(s: seq<string>)
    requires forall i, j :: 0 <= i < j < |s| ==> s[i] != s[j]
    ensures |set x | x in s| == |s|
  {
    if s != [] {
      var rest := s[1..];
      SetSize(rest);
      assert (set x | x in s) == {s[0]} + (set x | x in rest);
    }
  }

  lemma NamesCounted(c: Crawl)
    ensures |AliasList(c)| == |Names(c)|
  {
    var names := [c.source.target] + seq(|c.documents|, i requires 0 <= i < |c.documents| => c.documents[i].target);
    DistinctOk(names);
    hide Distinct;
    SetSize(AliasList(c));
    forall n ensures n in names <==> n in Names(c) {
      if n in Names(c) && n != c.source.target {
        var d :| d in c.documents && d.target == n;
        var i :| 0 <= i < |c.documents| && c.documents[i] == d;
        assert names[i + 1] == n;
      }
      assert names[0] == c.source.target;
    }
    assert (set x | x in AliasList(c)) == Names(c);
  }

  /** The page is that of the final document, the lists fit, and the crawl has at most five names. */
  ghost predicate OutputFits(t: Terms, c: Crawl, o: RawOutput) {
    c.documents != [] &&
    (var final := c.documents[|c.documents| - 1];
     final.target in t.book.targets &&
     (var url := t.book.targets[final.target].url;
      && o.page.target == final.target
      && PageRecord(t.book.alabel, t.calendar, t.rendering, url, final.startedAt, o.page).Ok?
      && ListsFit(t.book, url, o) && |Names(c)| <= 5))
  }

  /** Which outputs of an accepted crawl are accepted. */
  lemma OutputExactly(t: Terms, o: RawOutput)
    requires CrawlOf(t.book, t.run).Ok?
    ensures OutputOk(t, o) <==> OutputFits(t, CrawlOf(t.book, t.run).value, o)
  {
    hide CrawlOf, AliasList, PageRecord, ListsOk, ListsFit, Names;
    CrawlIsOk(t);
    var c := CrawlOf(t.book, t.run).value;
    var url := t.book.targets[FinalOf(c).target].url;
    if PageRecord(t.book.alabel, t.calendar, t.rendering, url, FinalOf(c).startedAt, o.page).Ok? {
      PageUrl(t.book.alabel, t.calendar, t.rendering, url, FinalOf(c).startedAt, o.page);
    }
    ListsExactly(t.book, url, o);
    NamesCounted(c);
  }
}
