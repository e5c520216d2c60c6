/** The crawl seed collection: its validator, its unique index, and the merge write. */
module MongoCollection {
  import opened Outcomes
  import opened Ordering
  import opened Texts
  import opened SeedValues
  import opened SeedSources
  import opened SeedMerge
  import opened SeedAlgebra
  import opened MongoExpressions
  import opened MongoPipeline
  import Policies
  import UrlCanonical
  import UrlParse

  /** The collection as a map from identifiers to stored documents. */
  type Collection = map<string, Fields>

  //////////////////////////////////////////////////////////////////////////////
  // The validator
  //////////////////////////////////////////////////////////////////////////////

  const SOURCE_FIELDS: set<Name> := {Key, Type, SourceRef, RawUrl, Category, Priority, ObservedAt, Metadata}

  const SEED_FIELDS: set<Name> :=
    {DocumentId, SchemaVersion, CanonicalizationVersion, CanonicalUrl, Enabled, Priority, Categories, Sources,
     DiscoveredAt, UpdatedAt}

  /** A string of at least so many characters. */
  predicate Text(v: Value, least: nat) { v.Str? && |v.s| >= least }

  predicate InRange(v: Value, low: int, high: int) { v.Int? && low <= v.n <= high }

  predicate SourceSchema(v: Value) {
    && v.Obj? && v.fields.Keys == SOURCE_FIELDS
    && Text(v.fields[Key], 1) && Text(v.fields[Type], 1) && Text(v.fields[SourceRef], 0)
    && Text(v.fields[RawUrl], 1) && |v.fields[RawUrl].s| <= MAX_URL_BYTES
    && Text(v.fields[Category], 1) && InRange(v.fields[Priority], 1, 3)
    && v.fields[ObservedAt].Date? && v.fields[Metadata].Obj?
  }

  predicate HttpUrl(s: string) { "http://" <= s || "https://" <= s }

  /** $jsonSchema */
  predicate SeedSchema(doc: Fields) {
    && doc.Keys == SEED_FIELDS
    && doc[DocumentId].Str? && Hex64(doc[DocumentId].s)
    && doc[SchemaVersion] == Int(1) && doc[CanonicalizationVersion] == Int(1)
    && Text(doc[CanonicalUrl], 1) && |doc[CanonicalUrl].s| <= MAX_URL_BYTES && HttpUrl(doc[CanonicalUrl].s)
    && doc[Enabled].Bool? && InRange(doc[Priority], 1, 3)
    && doc[Categories].Arr? && doc[Categories].items != []
    && (forall v :: v in doc[Categories].items ==> Text(v, 1))
    && (forall i, j :: 0 <= i < j < |doc[Categories].items| ==> doc[Categories].items[i] != doc[Categories].items[j])
    && doc[Sources].Arr? && 1 <= |doc[Sources].items| <= MAX_SOURCES
    && (forall v :: v in doc[Sources].items ==> SourceSchema(v))
    && doc[DiscoveredAt].Date? && doc[UpdatedAt].Date?
  }

  /** The byte limit that the schema's character limit leaves open. */
  predicate RawUrlBytes(doc: Fields) {
    && Sources in doc && doc[Sources].Arr?
    && forall v :: v in doc[Sources].items ==>
         Sub(v, RawUrl).Str? && Utf8Length(Sub(v, RawUrl).s) <= MAX_URL_BYTES
  }

  predicate Admits(doc: Fields) { SeedSchema(doc) && RawUrlBytes(doc) }

  /** The unique index on canonical_url: no other document has the URL of this one. */
  predicate UniqueUrl(c: Collection, id: string, doc: Fields) {
    forall other :: other in c && other != id ==>
      !(CanonicalUrl in c[other] && CanonicalUrl in doc && c[other][CanonicalUrl] == doc[CanonicalUrl])
  }

  //////////////////////////////////////////////////////////////////////////////
  // Identities
  //////////////////////////////////////////////////////////////////////////////

  /** What identify_url guarantees: an identifier is a digest, its URL a canonical text with one identifier. */
  ghost predicate Identifies(identity: Identity) {
    && (forall id, u :: identity(id, u) ==> Hex64(id) && 1 <= |u| <= MAX_URL_BYTES && HttpUrl(u))
    && (forall id, other, u :: identity(id, u) && identity(other, u) ==> id == other)
  }

  /** The canonicalizer's fixed points that are eligible, under a digest. */
  function IdentityOf(alabel: string -> bool, digest: string -> Policies.Digest, eligible: string -> bool): Identity {
    (id, u) => UrlCanonical.Canonicalize(alabel, u) == Ok(u) && id == digest(u) && eligible(u)
  }

  lemma IdentityIdentifies(alabel: string -> bool, digest: string -> Policies.Digest, eligible: string -> bool)
    ensures Identifies(IdentityOf(alabel, digest, eligible))
  {
    hide UrlCanonical.Canonicalize, Hex64, HttpUrl;
    forall u: string | UrlCanonical.Canonicalize(alabel, u) == Ok(u)
      ensures 1 <= |u| <= MAX_URL_BYTES && HttpUrl(u)
    {
      UrlCanonical.FixedIsCanonical(alabel, u);
      CanonicalText(alabel, u);
    }
  }

  lemma CanonicalText(alabel: string -> bool, u: string)
    requires UrlCanonical.IsCanonical(alabel, u)
    ensures 1 <= |u| <= MAX_URL_BYTES && HttpUrl(u)
  {
    hide UrlParse.Good, UrlParse.Authority, UrlParse.QueryText;
    var id :| UrlParse.Good(alabel, id) && u == UrlParse.Render(id);
    GoodScheme(alabel, id);
    assert "http" + "://" == "http://" && "https" + "://" == "https://";
  }

  lemma GoodScheme(alabel: string -> bool, id: UrlParse.Identity)
    requires UrlParse.Good(alabel, id)
    ensures id.scheme in ["http", "https"]
  {
  }

  //////////////////////////////////////////////////////////////////////////////
  // Valid seeds are admitted
  //////////////////////////////////////////////////////////////////////////////

  lemma {:induction false} EncodedMembers(s: seq<Source>)
    ensures forall v :: v in EncodeAll(s) ==> exists x :: x in s && v == EncodeSource(x)
  {
    if s != [] {
      EncodedMembers(s[1..]);
      hide EncodeSource;
      forall v | v in EncodeAll(s) ensures exists x :: x in s && v == EncodeSource(x) {
        if v == EncodeSource(s[0]) {
          assert s[0] in s;
        } else {
          assert v in EncodeAll(s[1..]);
          var x :| x in s[1..] && v == EncodeSource(x);
          assert x in s;
        }
      }
    }
  }

  lemma SourceAdmitted(x: Source)
    requires ValidSource(x)
    ensures SourceSchema(EncodeSource(x))
    ensures var url := Sub(EncodeSource(x), RawUrl); url.Str? && Utf8Length(url.s) <= MAX_URL_BYTES
  {
    hide Utf8Length;
  }

  lemma SourcesAdmitted(s: seq<Source>)
    requires forall x :: x in s ==> ValidSource(x)
    ensures forall v :: v in EncodeAll(s) ==> SourceSchema(v)
    ensures forall v :: v in EncodeAll(s) ==> Sub(v, RawUrl).Str? && Utf8Length(Sub(v, RawUrl).s) <= MAX_URL_BYTES
  {
    hide SourceSchema, Utf8Length, EncodeSource, ValidSource;
    EncodedMembers(s);
    forall v | v in EncodeAll(s)
      ensures SourceSchema(v) && Sub(v, RawUrl).Str? && Utf8Length(Sub(v, RawUrl).s) <= MAX_URL_BYTES
    {
      var x :| x in s && v == EncodeSource(x);
      SourceAdmitted(x);
    }
  }

  lemma {:induction false} StringsAt(s: seq<string>)
    ensures |Strings(s)| == |s| && forall i :: 0 <= i < |s| ==> Strings(s)[i] == Str(s[i])
  {
    if s != [] { StringsAt(s[1..]); }
  }

  lemma {:induction false} CategoriesNamed(s: seq<Source>)
    requires forall x :: x in s ==> ValidSource(x)
    ensures forall c :: c in CategoryList(s) ==> c != ""
    ensures s != [] ==> CategoryList(s) != []
  {
    hide Utf8Length;
    if s != [] {
      assert s[0] in s;
      CategoriesNamed(s[1..]);
    }
  }

  lemma CategoriesAdmitted(s: seq<Source>)
    requires s != [] && forall x :: x in s ==> ValidSource(x)
    ensures var v := Strings(SortedSet(CategoryList(s)));
      && v != [] && (forall x :: x in v ==> Text(x, 1)) && forall i, j :: 0 <= i < j < |v| ==> v[i] != v[j]
  {
    hide ValidSource, SortedSet, Less, CategoryList, Strings;
    var c := SortedSet(CategoryList(s));
    CategoriesNamed(s);
    SortedSetOk(CategoryList(s));
    StringsAt(c);
    assert CategoryList(s)[0] in c;
    forall i | 0 <= i < |c| ensures c[i] != "" { assert c[i] in c; }
    forall i, j | 0 <= i < j < |c| ensures c[i] != c[j] {
      assert Less(c[i], c[j]);
      LessTotal(c[i], c[j]);
    }
  }

  /** The document of a valid seed meets the whole validator; with too many sources none does. */
  lemma ValidIsAdmitted(identity: Identity, d: Seed)
    requires Identifies(identity)
    ensures Valid(identity, d) ==> Admits(Encode(d))
    ensures |d.sources| > MAX_SOURCES ==> !Admits(Encode(d))
  {
    hide ValidSource, SourceSchema, SortedSet, CategoryList, Strings, EncodeAll, HttpUrl, Hex64, Utf8Length, Less,
      ByKey, LowestPriority;
    if Valid(identity, d) {
      SourcesAdmitted(d.sources);
      CategoriesAdmitted(d.sources);
      PriorityInRange(d.sources);
    }
  }

  lemma PriorityInRange(s: seq<Source>)
    requires s != [] && forall x :: x in s ==> ValidSource(x)
    ensures 1 <= LowestPriority(s) <= 3
  {
    hide Utf8Length;
    var p := LowestPriority(s);
    var x :| x in s && x.priority == p;
  }

  //////////////////////////////////////////////////////////////////////////////
  // The write operation
  //////////////////////////////////////////////////////////////////////////////

  /** The update filter: same identifier, and the same canonical URL unless there is none. */
  predicate Matches(doc: Fields, d: Seed) {
    && (if DocumentId in doc then doc[DocumentId] == Str(d.id) else false)
    && (if CanonicalUrl in doc then doc[CanonicalUrl] == Str(d.canonicalUrl) else true)
  }

  /** An upsert: a matching document is updated; without a document under the identifier one is
      inserted; a document that does not match makes the insertion collide. */
  function Upsert(c: Collection, d: Seed): Result<Collection> {
    if d.id in c && !Matches(c[d.id], d) then Err("duplicate key")
    else
      var before := if d.id in c then c[d.id] else map[DocumentId := Str(d.id)];
      var after := RunPipeline(before, Pipeline(d));
      if !Admits(after) then Err("document failed validation")
      else if !UniqueUrl(c, d.id, after) then Err("duplicate key")
      else Ok(c[d.id := after])
  }

  ghost predicate Stores(c: Collection, seeds: map<string, Seed>, identity: Identity) {
    && c.Keys == seeds.Keys
    && forall id :: id in seeds ==> Valid(identity, seeds[id]) && seeds[id].id == id && c[id] == Encode(seeds[id])
  }

  /** Documents of a valid collection have different URLs, and so has a valid one beside them. */
  lemma UrlsDiffer(c: Collection, seeds: map<string, Seed>, identity: Identity, d: Seed)
    requires Identifies(identity) && Stores(c, seeds, identity) && Valid(identity, d)
    ensures UniqueUrl(c, d.id, Encode(d))
  {
    hide ValidSource, SortedSet, CategoryList, EncodeAll, Strings, HttpUrl, Hex64, ByKey, LowestPriority;
    forall other | other in c && other != d.id
      ensures !(CanonicalUrl in c[other] && c[other][CanonicalUrl] == Encode(d)[CanonicalUrl])
    {
      assert c[other] == Encode(seeds[other]);
      assert identity(other, seeds[other].canonicalUrl) && identity(d.id, d.canonicalUrl);
    }
  }

  /** Over a collection of valid documents, one write succeeds exactly when the reference merge does,
      and stores exactly its result; every other document is untouched. */
  lemma UpsertIsMerge(c: Collection, seeds: map<string, Seed>, identity: Identity, i: Seed)
    requires Identifies(identity) && Stores(c, seeds, identity) && Valid(identity, i)
    ensures var merged := Merge(identity, if i.id in seeds then Some(seeds[i.id]) else None, i, None);
            && Upsert(c, i).Ok? == merged.Ok?
            && (merged.Ok? ==> Stores(Upsert(c, i).value, seeds[i.id := merged.value], identity))
  {
    hide RunPipeline, Pipeline, MergeSources, Valid, Rollup, Encode, Merge, Identifies, Admits, UniqueUrl;
    if i.id !in seeds {
      InsertCase(c, seeds, identity, i);
    } else {
      UpdateCase(c, seeds, identity, seeds[i.id], i);
    }
  }

  lemma InsertCase(c: Collection, seeds: map<string, Seed>, identity: Identity, i: Seed)
    requires Identifies(identity) && Stores(c, seeds, identity) && Valid(identity, i) && i.id !in c
    ensures Merge(identity, None, i, None) == Ok(i)
    ensures Upsert(c, i) == Ok(c[i.id := Encode(i)])
  {
    hide RunPipeline, Pipeline, Admits, UniqueUrl, Identifies, Valid;
    InsertIsIncoming(identity, i);
    ValidIsAdmitted(identity, i);
    UrlsDiffer(c, seeds, identity, i);
  }

  lemma UpdateCase(c: Collection, seeds: map<string, Seed>, identity: Identity, e: Seed, i: Seed)
    requires Identifies(identity) && Stores(c, seeds, identity)
    requires Valid(identity, e) && Valid(identity, i) && e.id == i.id && i.id in c && c[i.id] == Encode(e)
    ensures var merged := Merge(identity, Some(e), i, None);
            if merged.Ok? then Upsert(c, i) == Ok(c[i.id := Encode(merged.value)])
                               && Valid(identity, merged.value) && merged.value.id == i.id
            else Upsert(c, i).Err?
  {
    hide RunPipeline, Pipeline, MergeSources, LowestPriority, CategoryList, SortedSet, Strings, Less, Admits, UniqueUrl,
      Identifies, Stores, Valid;
    FilterIs(e, i);
    if e.canonicalUrl == i.canonicalUrl {
      UpdateIsMerge(identity, e, i);
      MergeSucceeds(identity, e, i);
      var after := Rollup(e, i, MergeSources(e.sources, i.sources), None);
      ValidIsAdmitted(identity, after);
      if Valid(identity, after) {
        UrlsDiffer(c, seeds, identity, after);
      }
    } else {
      OtherUrlRefused(identity, e, i);
    }
  }

  lemma FilterIs(e: Seed, i: Seed)
    ensures Matches(Encode(e), i) <==> e.id == i.id && e.canonicalUrl == i.canonicalUrl
  {
    hide EncodeAll, Strings;
  }

  lemma OtherUrlRefused(identity: Identity, e: Seed, i: Seed)
    requires e.canonicalUrl != i.canonicalUrl
    ensures Merge(identity, Some(e), i, None).Err?
  {
    hide Valid, MergeSources;
  }

  /** Replaying a write changes nothing. */
  lemma ReplayChangesNothing(c: Collection, seeds: map<string, Seed>, identity: Identity, i: Seed)
    requires Identifies(identity) && Stores(c, seeds, identity) && Valid(identity, i) && Upsert(c, i).Ok?
    ensures Upsert(Upsert(c, i).value, i) == Upsert(c, i)
  {
    hide Upsert, Valid, Merge, Identifies, Encode;
    UpsertIsMerge(c, seeds, identity, i);
    var m := Merge(identity, if i.id in seeds then Some(seeds[i.id]) else None, i, None).value;
    var once := Upsert(c, i).value;
    MergeTwice(identity, if i.id in seeds then Some(seeds[i.id]) else None, i);
    UpsertIsMerge(once, seeds[i.id := m], identity, i);
    assert Upsert(once, i).value == once;
  }

  lemma MergeTwice(identity: Identity, e: Option<Seed>, i: Seed)
    requires Valid(identity, i) && Merge(identity, e, i, None).Ok?
    ensures var m := Merge(identity, e, i, None).value; Merge(identity, Some(m), i, None) == Ok(m)
  {
    MergeIdempotent(identity, i);
    if e.Some? {
      MergedValid(identity, e.value, i);
      MergeAssociative(identity, e.value, i, i);
      hide Merge, Valid;
    } else {
      hide Valid;
    }
  }

  lemma MergedValid(identity: Identity, e: Seed, i: Seed)
    requires Merge(identity, Some(e), i, None).Ok?
    ensures Valid(identity, e) && e.id == i.id && e.canonicalUrl == i.canonicalUrl
  {
    hide Valid, MergeSources;
  }
}
