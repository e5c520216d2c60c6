/** Which documents the collection's validator admits: the encodings of seeds in range. */
module MongoSchema {
  import opened Texts
  import opened SeedValues
  import opened SeedSources
  import opened SeedMerge
  import opened MongoExpressions
  import opened MongoPipeline
  import opened MongoCollection

  /** A source in range; its reference may be empty and its metadata anything. */
  predicate SourceFits(s: Source) {
    && s.key != "" && s.kind != "" && s.rawUrl != "" && s.category != ""
    && Utf8Length(s.rawUrl) <= 2048 && 1 <= s.priority <= 3
  }

  /** A seed in range.  Order, rollup and dates are free. */
  ghost predicate SeedFits(d: Seed) {
    && |d.id| == 64 && (forall c :: c in d.id ==> '0' <= c <= '9' || 'a' <= c <= 'f')
    && |d.canonicalUrl| <= 2048 && ("http://" <= d.canonicalUrl || "https://" <= d.canonicalUrl)
    && 1 <= d.priority <= 3
    && d.categories != [] && (forall c :: c in d.categories ==> c != "")
    && (forall i, j :: 0 <= i < j < |d.categories| ==> d.categories[i] != d.categories[j])
    && 1 <= |d.sources| <= 100 && forall s :: s in d.sources ==> SourceFits(s)
  }

  //////////////////////////////////////////////////////////////////////////////
  // Sources
  //////////////////////////////////////////////////////////////////////////////

  predicate SourceAdmits(v: Value) {
    SourceSchema(v) && Sub(v, RawUrl).Str? && Utf8Length(Sub(v, RawUrl).s) <= 2048
  }

  lemma SourceEncodes(s: Source)
    ensures SourceAdmits(EncodeSource(s)) <==> SourceFits(s)
  {
    hide Utf8Length;
    Utf8AtLeast(s.rawUrl);
  }

  lemma SourceDecodes(v: Value) returns (s: Source)
    requires SourceAdmits(v)
    ensures v == EncodeSource(s)
  {
    hide Utf8Length;
    var f := v.fields;
    s := Source(f[Key].s, f[Type].s, f[SourceRef].s, f[RawUrl].s, f[Category].s, f[Priority].n, f[ObservedAt].ms,
                f[Metadata].fields);
    assert EncodeSource(s).fields == f;
  }

  lemma {:induction false} SourcesDecode(vs: seq<Value>) returns (s: seq<Source>)
    requires forall v :: v in vs ==> SourceAdmits(v)
    ensures vs == EncodeAll(s) && |s| == |vs| && forall x :: x in s ==> SourceFits(x)
  {
    hide SourceAdmits, SourceFits, EncodeSource;
    s := [];
    if vs != [] {
      assert vs[0] in vs;
      var first := SourceDecodes(vs[0]);
      var rest := SourcesDecode(vs[1..]);
      SourceEncodes(first);
      s := [first] + rest;
      assert vs == [vs[0]] + vs[1..] && s[1..] == rest;
    }
  }

  lemma SourcesEncode(s: seq<Source>)
    ensures (forall x :: x in s ==> SourceFits(x)) ==> forall v :: v in EncodeAll(s) ==> SourceAdmits(v)
  {
    hide SourceAdmits, SourceFits, EncodeSource, EncodeAll;
    EncodedMembers(s);
    if forall x :: x in s ==> SourceFits(x) {
      forall v | v in EncodeAll(s) ensures SourceAdmits(v) {
        var x :| x in s && v == EncodeSource(x);
        SourceEncodes(x);
      }
    }
  }

  //////////////////////////////////////////////////////////////////////////////
  // Categories
  //////////////////////////////////////////////////////////////////////////////

  ghost predicate NamesAdmit(vs: seq<Value>) {
    && vs != [] && (forall v :: v in vs ==> Text(v, 1))
    && forall i, j :: 0 <= i < j < |vs| ==> vs[i] != vs[j]
  }

  ghost predicate NamesFit(s: seq<string>) {
    && s != [] && (forall c :: c in s ==> c != "")
    && forall i, j :: 0 <= i < j < |s| ==> s[i] != s[j]
  }

  lemma NamesEncode(s: seq<string>)
    ensures NamesAdmit(Strings(s)) <==> NamesFit(s)
  {
    hide Strings;
    StringsAt(s);
    var vs := Strings(s);
    if NamesFit(s) {
      forall v | v in vs ensures Text(v, 1) { var i :| 0 <= i < |vs| && vs[i] == v; assert s[i] in s; }
    }
    if NamesAdmit(vs) {
      forall c | c in s ensures c != "" { var i :| 0 <= i < |s| && s[i] == c; assert vs[i] in vs; }
      forall i, j | 0 <= i < j < |s| ensures s[i] != s[j] { assert vs[i] != vs[j]; }
    }
  }

  lemma NamesDecode(vs: seq<Value>) returns (s: seq<string>)
    requires forall v :: v in vs ==> Text(v, 1)
    ensures vs == Strings(s)
  {
    hide Strings;
    s := seq(|vs|, i requires 0 <= i < |vs| => assert vs[i] in vs; vs[i].s);
    StringsAt(s);
    forall i | 0 <= i < |vs| ensures vs[i] == Strings(s)[i] { assert vs[i] in vs; }
  }

  //////////////////////////////////////////////////////////////////////////////
  // Documents
  //////////////////////////////////////////////////////////////////////////////

  lemma SeedEncodes(d: Seed)
    ensures Admits(Encode(d)) <==> SeedFits(d)
  {
    hide SourceFits, SourceAdmits, SourceSchema, EncodeAll, Strings, Utf8Length;
    var doc := Encode(d);
    NamesEncode(d.categories);
    SourcesEncode(d.sources);
    if Admits(doc) {
      forall v | v in EncodeAll(d.sources) ensures SourceAdmits(v) { Admitted(v); }
      EachFits(d.sources);
    }
    if SeedFits(d) {
      forall v | v in EncodeAll(d.sources)
        ensures SourceSchema(v) && Sub(v, RawUrl).Str? && Utf8Length(Sub(v, RawUrl).s) <= 2048
      {
        Admitted(v);
      }
      UrlNonempty(d.canonicalUrl);
    }
  }

  lemma Admitted(v: Value)
    ensures SourceAdmits(v) <==> SourceSchema(v) && Sub(v, RawUrl).Str? && Utf8Length(Sub(v, RawUrl).s) <= 2048
  {
  }

  lemma UrlNonempty(u: string)
    requires "http://" <= u || "https://" <= u
    ensures u != ""
  {
  }

  lemma {:induction false} EachFits(s: seq<Source>)
    requires forall v :: v in EncodeAll(s) ==> SourceAdmits(v)
    ensures forall x :: x in s ==> SourceFits(x)
  {
    hide SourceAdmits, SourceFits, EncodeSource;
    if s != [] {
      assert EncodeAll(s)[0] == EncodeSource(s[0]);
      SourceEncodes(s[0]);
      EachFits(s[1..]);
    }
  }

  /** The validator admits exactly the encodings of seeds in range. */
  lemma SchemaExactly(doc: Fields)
    ensures Admits(doc) <==> exists d :: doc == Encode(d) && SeedFits(d)
  {
    hide SeedFits, Encode, Admits;
    if Admits(doc) {
      var d := DocumentDecodes(doc);
      SeedEncodes(d);
    }
    if d :| doc == Encode(d) && SeedFits(d) { SeedEncodes(d); }
  }

  lemma DocumentDecodes(doc: Fields) returns (d: Seed)
    requires Admits(doc)
    ensures doc == Encode(d)
  {
    hide SourceAdmits, SourceSchema, EncodeAll, Strings, Utf8Length, Hex64, HttpUrl;
    forall v | v in doc[Sources].items ensures SourceAdmits(v) { Admitted(v); }
    var sources := SourcesDecode(doc[Sources].items);
    var categories := NamesDecode(doc[Categories].items);
    d := Seed(doc[DocumentId].s, doc[CanonicalUrl].s, doc[Enabled].b, doc[Priority].n, categories, sources,
              doc[DiscoveredAt].ms, doc[UpdatedAt].ms);
  }
}
