/** Crawl seed documents and the reference merge. */
module SeedMerge {
  import opened Outcomes
  import opened Ordering
  import opened SeedSources
  import opened Texts

  const MAX_SOURCES: nat := 100
  const MAX_URL_BYTES: nat := 2048

  /** The URL canonicalizer and the SHA-256 identifier enter as one relation: identity(id, url) says that url is
      canonical and crawl eligible and that id is its identifier. */
  type Identity = (string, string) -> bool

  datatype Seed = Seed(
    id: string,
    canonicalUrl: string,
    enabled: bool,
    priority: int,
    categories: seq<string>,
    sources: seq<Source>,
    discoveredAt: int,
    updatedAt: int)

  //////////////////////////////////////////////////////////////////////////////
  // Validation
  //////////////////////////////////////////////////////////////////////////////

  predicate ValidSource(s: Source) {
    && s.key != "" && s.kind != "" && s.rawUrl != "" && s.category != ""
    && |s.rawUrl| <= 2048 && Utf8Length(s.rawUrl) <= 2048
    && 1 <= s.priority <= 3
  }

  function LowestPriority(s: seq<Source>): (p: int)
    requires s != []
    ensures exists x :: x in s && x.priority == p
    ensures forall x :: x in s ==> p <= x.priority
  {
    if |s| == 1 then s[0].priority
    else
      var p := LowestPriority(s[1..]);
      assert forall x :: x in s <==> x == s[0] || x in s[1..];
      if s[0].priority < p then s[0].priority else p
  }

  function CategoryList(s: seq<Source>): seq<string> {
    if s == [] then [] else [s[0].category] + CategoryList(s[1..])
  }

  predicate Valid(identity: Identity, d: Seed) {
    && identity(d.id, d.canonicalUrl)
    && 1 <= |d.sources| <= 100
    && (forall s :: s in d.sources ==> ValidSource(s))
    && ByKey(d.sources)
    && d.priority == LowestPriority(d.sources)
    && d.categories == SortedSet(CategoryList(d.sources))
    && d.discoveredAt <= d.updatedAt
  }

  //////////////////////////////////////////////////////////////////////////////
  // The merge
  //////////////////////////////////////////////////////////////////////////////

  function Least(a: int, b: int): int {
    if b < a then b else a
  }

  function Greatest(a: int, b: int): int {
    if b > a then b else a
  }

  /** The rollups of two documents with the same URL and the given sources. */
  function Rollup(e: Seed, i: Seed, sources: seq<Source>, updatedAt: Option<int>): Seed
    requires sources != []
  {
    Seed(e.id, e.canonicalUrl, e.enabled, LowestPriority(sources), SortedSet(CategoryList(sources)), sources,
         Least(e.discoveredAt, i.discoveredAt),
         if updatedAt.Some? then updatedAt.value else Greatest(e.updatedAt, i.updatedAt))
  }

  function Merge(identity: Identity, existing: Option<Seed>, incoming: Seed, updatedAt: Option<int>): Result<Seed> {
    if !Valid(identity, incoming) then Err("incoming is not valid")
    else if existing.None? then
      var result := if updatedAt.Some? then incoming.(updatedAt := updatedAt.value) else incoming;
      if Valid(identity, result) then Ok(result) else Err("updated_at must not precede discovered_at")
    else
      var e := existing.value;
      if !Valid(identity, e) then Err("existing is not valid")
      else if e.id != incoming.id then Err("cannot merge different URL IDs")
      else if e.canonicalUrl != incoming.canonicalUrl then Err("same URL ID has conflicting canonical URLs")
      else
        var sources := MergeSources(e.sources, incoming.sources);
        if !(1 <= |sources| <= MAX_SOURCES) then Err("a seed may have at most 100 sources")
        else
          var result := Rollup(e, incoming, sources, updatedAt);
          if result.updatedAt < result.discoveredAt then Err("updated_at must not precede discovered_at")
          else if Valid(identity, result) then Ok(result)
          else Err("result is not valid")
  }

  function MergeMany(identity: Identity, documents: seq<Seed>): Result<Seed> {
    if documents == [] then Err("at least one seed document is required")
    else if |documents| == 1 then Merge(identity, None, documents[0], None)
    else
      match MergeMany(identity, documents[..|documents| - 1])
      case Err(code) => Err(code)
      case Ok(merged) => Merge(identity, Some(merged), documents[|documents| - 1], None)
  }

  //////////////////////////////////////////////////////////////////////////////
  // The merge as written: a dictionary updated in place, then sorted by key
  //////////////////////////////////////////////////////////////////////////////

  function Lookup(m: map<string, Source>, k: string): Option<Source> {
    if k in m then Some(m[k]) else None
  }

  /** dict holds the merge of e and i, and order lists its keys. */
  ghost predicate DictIs(dict: map<string, Source>, order: seq<string>, e: seq<Source>, i: seq<Source>) {
    && (forall k :: k in order <==> k in dict)
    && (forall k :: Lookup(dict, k) == Pick(Find(e, k), Find(i, k)))
  }

  method MergeDictionaries(e: seq<Source>, i: seq<Source>) returns (merged: seq<Source>)
    requires ByKey(e) && ByKey(i)
    ensures merged == MergeSources(e, i)
  {
    hide Less, DictIs;
    var dict: map<string, Source>, order: seq<string> := map[], [];
    DictEmpty();
    for n := 0 to |e|
      invariant DictIs(dict, order, e[..n], [])
    {
      DictStored(dict, order, e, n);
      dict, order := dict[e[n].key := e[n]], order + [e[n].key];
    }
    assert e[..|e|] == e && i[..0] == [];
    for n := 0 to |i|
      invariant DictIs(dict, order, e, i[..n])
    {
      DictIncoming(dict, order, e, i, n);
      var x := i[n];
      if x.key !in dict || x.observedAt > dict[x.key].observedAt {
        dict, order := dict[x.key := x], order + [x.key];
      }
    }
    assert i[..|i|] == i;
    var keys := SortedSet(order);
    SortedSetOk(order);
    DictMeans(dict, order, e, i);
    merged := seq(|keys|, n requires 0 <= n < |keys| => assert keys[n] in keys; dict[keys[n]]);
    MergeSourcesOk(e, i);
    SortedDictionary(dict, keys, merged, e, i);
    ByKeyUnique(merged, MergeSources(e, i));
  }

  lemma PrefixFind(s: seq<Source>, n: nat)
    requires ByKey(s) && n < |s|
    ensures Find(s[..n], s[n].key) == None
    ensures forall k :: Find(s[..n + 1], k) == if k == s[n].key then Some(s[n]) else Find(s[..n], k)
  {
    ByKeyDistinct(s);
    forall k ensures Find(s[..n + 1], k) == if k == s[n].key then Some(s[n]) else Find(s[..n], k) {
      assert s[..n + 1] == s[..n] + [s[n]];
      FindConcat(s[..n], [s[n]], k);
      assert forall j :: 0 <= j < n ==> s[..n][j] == s[j];
    }
  }

  lemma DictEmpty()
    ensures DictIs(map[], [], [], [])
  {
  }

  lemma DictMeans(dict: map<string, Source>, order: seq<string>, e: seq<Source>, i: seq<Source>)
    requires DictIs(dict, order, e, i)
    ensures forall k :: k in order <==> k in dict
    ensures forall k :: Lookup(dict, k) == Pick(Find(e, k), Find(i, k))
  {
  }

  lemma DictStored(dict: map<string, Source>, order: seq<string>, e: seq<Source>, n: nat)
    requires ByKey(e) && n < |e| && DictIs(dict, order, e[..n], [])
    ensures DictIs(dict[e[n].key := e[n]], order + [e[n].key], e[..n + 1], [])
  {
    hide Less;
    PrefixFind(e, n);
  }

  lemma DictIncoming(dict: map<string, Source>, order: seq<string>, e: seq<Source>, i: seq<Source>, n: nat)
    requires ByKey(e) && ByKey(i) && n < |i| && DictIs(dict, order, e, i[..n])
    ensures var x := i[n];
            if x.key !in dict || x.observedAt > dict[x.key].observedAt
            then DictIs(dict[x.key := x], order + [x.key], e, i[..n + 1])
            else DictIs(dict, order, e, i[..n + 1])
  {
    hide Less;
    PrefixFind(i, n);
    var x := i[n];
    assert Lookup(dict, x.key) == Pick(Find(e, x.key), None) == Find(e, x.key);
    var enters := x.key !in dict || x.observedAt > dict[x.key].observedAt;
    var dict' := if enters then dict[x.key := x] else dict;
    forall k ensures Lookup(dict', k) == Pick(Find(e, k), Find(i[..n + 1], k)) {
      assert Lookup(dict, k) == Pick(Find(e, k), Find(i[..n], k));
    }
  }

  lemma SortedDictionary(dict: map<string, Source>, keys: seq<string>, merged: seq<Source>,
                         e: seq<Source>, i: seq<Source>)
    requires Increasing(keys) && forall k :: k in keys <==> k in dict
    requires forall k :: Lookup(dict, k) == Pick(Find(e, k), Find(i, k))
    requires |merged| == |keys| && forall n :: 0 <= n < |keys| ==> keys[n] in dict && merged[n] == dict[keys[n]]
    ensures ByKey(merged) && forall k :: Find(merged, k) == Pick(Find(e, k), Find(i, k))
  {
    forall n | 0 <= n < |keys| ensures merged[n].key == keys[n] {
      assert Lookup(dict, keys[n]) == Pick(Find(e, keys[n]), Find(i, keys[n]));
    }
    forall k ensures Find(merged, k) == Lookup(dict, k) {
      if k in dict {
        var n :| 0 <= n < |keys| && keys[n] == k;
        assert merged[n] in merged;
        FindMember(merged, merged[n]);
      }
    }
  }

  method MergeSeedDocuments(identity: Identity, existing: Option<Seed>, incoming: Seed, updatedAt: Option<int>)
    returns (r: Result<Seed>)
    ensures r == Merge(identity, existing, incoming, updatedAt)
  {
    if !Valid(identity, incoming) {
      return Err("incoming is not valid");
    }
    if existing.None? {
      var result := if updatedAt.Some? then incoming.(updatedAt := updatedAt.value) else incoming;
      if !Valid(identity, result) {
        return Err("updated_at must not precede discovered_at");
      }
      return Ok(result);
    }
    var e := existing.value;
    if !Valid(identity, e) {
      return Err("existing is not valid");
    }
    if e.id != incoming.id {
      return Err("cannot merge different URL IDs");
    }
    if e.canonicalUrl != incoming.canonicalUrl {
      return Err("same URL ID has conflicting canonical URLs");
    }
    var sources := MergeDictionaries(e.sources, incoming.sources);
    MergeNonempty(e.sources, incoming.sources);
    if |sources| > MAX_SOURCES {
      return Err("a seed may have at most 100 sources");
    }
    var result := Rollup(e, incoming, sources, updatedAt);
    if result.updatedAt < result.discoveredAt {
      return Err("updated_at must not precede discovered_at");
    }
    RollupValid(identity, e, incoming, updatedAt);
    return Ok(result);
  }

  lemma MergeNonempty(e: seq<Source>, i: seq<Source>)
    requires ByKey(e) && ByKey(i) && e != []
    ensures MergeSources(e, i) != []
  {
    MergeSourcesOk(e, i);
    assert Find(MergeSources(e, i), e[0].key) == Pick(Find(e, e[0].key), Find(i, e[0].key));
  }

  /** The validation of the result never fails: merging keeps every invariant of a seed document. */
  lemma RollupValid(identity: Identity, e: Seed, i: Seed, updatedAt: Option<int>)
    requires Valid(identity, e) && Valid(identity, i)
    requires var sources := MergeSources(e.sources, i.sources);
             && 1 <= |sources| <= MAX_SOURCES
             && Rollup(e, i, sources, updatedAt).discoveredAt <= Rollup(e, i, sources, updatedAt).updatedAt
    ensures Valid(identity, Rollup(e, i, MergeSources(e.sources, i.sources), updatedAt))
  {
    MergeSourcesOk(e.sources, i.sources);
  }

  //////////////////////////////////////////////////////////////////////////////
  // When a merge succeeds
  //////////////////////////////////////////////////////////////////////////////

  /** Two valid documents of one URL always merge, unless together they have more than 100 keys. */
  lemma MergeSucceeds(identity: Identity, e: Seed, i: Seed)
    requires Valid(identity, e) && Valid(identity, i) && e.id == i.id && e.canonicalUrl == i.canonicalUrl
    ensures MergeSources(e.sources, i.sources) != []
    ensures var sources := MergeSources(e.sources, i.sources);
            if |sources| <= MAX_SOURCES
            then Merge(identity, Some(e), i, None) == Ok(Rollup(e, i, sources, None))
                 && Valid(identity, Rollup(e, i, sources, None))
            else Merge(identity, Some(e), i, None) == Err("a seed may have at most 100 sources")
  {
    hide Less, Find, ValidSource, LowestPriority, CategoryList, SortedSet, ByKey, MergeSources;
    MergeNonempty(e.sources, i.sources);
    if |MergeSources(e.sources, i.sources)| <= MAX_SOURCES {
      RollupValid(identity, e, i, None);
    }
  }

  lemma MergeIdempotent(identity: Identity, d: Seed)
    requires Valid(identity, d)
    ensures Merge(identity, Some(d), d, None) == Ok(d)
  {
    MergeSourcesOk(d.sources, d.sources);
    ByKeyUnique(MergeSources(d.sources, d.sources), d.sources);
    MergeSucceeds(identity, d, d);
  }
}
