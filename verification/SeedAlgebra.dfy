/** The algebra of the seed merge: associativity, and what a fold over many documents returns. */
module SeedAlgebra {
  import opened Outcomes
  import opened Ordering
  import opened SeedSources
  import opened SeedMerge

  //////////////////////////////////////////////////////////////////////////////
  // Counting keys
  //////////////////////////////////////////////////////////////////////////////

  ghost function Keys(s: seq<Source>): set<string> {
    set x | x in s :: x.key
  }

  lemma {:induction false} KeysCount(s: seq<Source>)
    requires ByKey(s)
    ensures |Keys(s)| == |s|
  {
    if s != [] {
      ByKeyFirst(s);
      KeysCount(s[1..]);
      assert forall x :: x in s <==> x == s[0] || x in s[1..];
      assert Keys(s) == {s[0].key} + Keys(s[1..]);
    } else {
      assert Keys(s) == {};
    }
  }

  lemma KeysFind(s: seq<Source>, k: string)
    ensures k in Keys(s) <==> Find(s, k).Some?
  {
  }

  lemma KeysOfMerge(e: seq<Source>, i: seq<Source>)
    requires ByKey(e) && ByKey(i)
    ensures Keys(MergeSources(e, i)) == Keys(e) + Keys(i)
    ensures |MergeSources(e, i)| == |Keys(e) + Keys(i)|
  {
    MergeSourcesOk(e, i);
    forall k ensures k in Keys(MergeSources(e, i)) <==> k in Keys(e) || k in Keys(i) {
      KeysFind(MergeSources(e, i), k);
      KeysFind(e, k);
      KeysFind(i, k);
      assert Find(MergeSources(e, i), k) == Pick(Find(e, k), Find(i, k));
    }
    KeysCount(MergeSources(e, i));
  }

  //////////////////////////////////////////////////////////////////////////////
  // Associativity
  //////////////////////////////////////////////////////////////////////////////

  lemma MergeSourcesAssociative(a: seq<Source>, b: seq<Source>, c: seq<Source>)
    requires ByKey(a) && ByKey(b) && ByKey(c)
    ensures MergeSources(MergeSources(a, b), c) == MergeSources(a, MergeSources(b, c))
  {
    hide Less, Find, MergeSources;
    MergeSourcesOk(a, b);
    MergeSourcesOk(b, c);
    var ab, bc := MergeSources(a, b), MergeSources(b, c);
    MergeSourcesOk(ab, c);
    MergeSourcesOk(a, bc);
    ByKeyUnique(MergeSources(ab, c), MergeSources(a, bc));
  }

  predicate SameUrl(a: Seed, b: Seed) {
    a.id == b.id && a.canonicalUrl == b.canonicalUrl
  }

  function Then(identity: Identity, left: Result<Seed>, right: Seed): Result<Seed> {
    if left.Ok? then Merge(identity, Some(left.value), right, None) else left
  }

  /** Grouping does not matter, neither for the merged document nor for whether 100 sources suffice. */
  lemma MergeAssociative(identity: Identity, a: Seed, b: Seed, c: Seed)
    requires Valid(identity, a) && Valid(identity, b) && Valid(identity, c)
    requires SameUrl(a, b) && SameUrl(b, c)
    ensures var leftFirst := Then(identity, Merge(identity, Some(a), b, None), c);
            var rightFirst := var bc := Merge(identity, Some(b), c, None);
                              if bc.Ok? then Merge(identity, Some(a), bc.value, None) else bc;
            leftFirst == rightFirst
  {
    hide Less, Find, MergeSources, Valid, LowestPriority, CategoryList, SortedSet, Merge, ByKey;
    ValidByKey(identity, a);
    ValidByKey(identity, b);
    ValidByKey(identity, c);
    MergeSucceeds(identity, a, b);
    MergeSucceeds(identity, b, c);
    var ab, bc := MergeSources(a.sources, b.sources), MergeSources(b.sources, c.sources);
    MergeSourcesAssociative(a.sources, b.sources, c.sources);
    MergeGrows(a.sources, b.sources, c.sources);
    if |ab| <= MAX_SOURCES { MergeSucceeds(identity, Rollup(a, b, ab, None), c); }
    if |bc| <= MAX_SOURCES { MergeSucceeds(identity, a, Rollup(b, c, bc, None)); }
  }

  lemma MergeGrows(a: seq<Source>, b: seq<Source>, c: seq<Source>)
    requires ByKey(a) && ByKey(b) && ByKey(c)
    ensures |MergeSources(a, b)| <= |MergeSources(MergeSources(a, b), c)|
    ensures |MergeSources(b, c)| <= |MergeSources(a, MergeSources(b, c))|
  {
    hide Less, Find, MergeSources, ByKey, Keys;
    MergeSourcesOk(a, b);
    MergeSourcesOk(b, c);
    var ab, bc := MergeSources(a, b), MergeSources(b, c);
    KeysOfMerge(ab, c);
    KeysOfMerge(a, bc);
    SubsetCount(Keys(ab), Keys(ab) + Keys(c));
    SubsetCount(Keys(bc), Keys(a) + Keys(bc));
    KeysCount(ab);
    KeysCount(bc);
  }

  lemma ValidByKey(identity: Identity, d: Seed)
    requires Valid(identity, d)
    ensures ByKey(d.sources) && d.sources != [] && |d.sources| <= MAX_SOURCES
  {
  }

  //////////////////////////////////////////////////////////////////////////////
  // Folding many documents
  //////////////////////////////////////////////////////////////////////////////

  ghost predicate Compatible(identity: Identity, docs: seq<Seed>) {
    forall d :: d in docs ==> Valid(identity, d) && SameUrl(d, docs[0])
  }

  ghost function AllKeys(docs: seq<Seed>): set<string> {
    set d, x | d in docs && x in d.sources :: x.key
  }

  /** What each document holds under a key. */
  function Column(docs: seq<Seed>, k: string): (c: seq<Option<Source>>)
    ensures |c| == |docs| && forall i :: 0 <= i < |docs| ==> c[i] == Find(docs[i].sources, k)
  {
    seq(|docs|, i requires 0 <= i < |docs| => Find(docs[i].sources, k))
  }

  function FoldPick(c: seq<Option<Source>>): Option<Source> {
    if c == [] then None else Pick(FoldPick(c[..|c| - 1]), c[|c| - 1])
  }

  function FoldFind(docs: seq<Seed>, k: string): Option<Source> {
    FoldPick(Column(docs, k))
  }

  lemma FoldFindSnoc(front: seq<Seed>, last: Seed, k: string)
    ensures FoldFind(front + [last], k) == Pick(FoldFind(front, k), Find(last.sources, k))
  {
    var c := Column(front + [last], k);
    assert c[..|c| - 1] == Column(front, k);
  }

  /** What a successful fold contains. */
  ghost predicate IsFold(docs: seq<Seed>, r: Seed)
    requires docs != []
  {
    && SameUrl(r, docs[0]) && r.enabled == docs[0].enabled
    && ByKey(r.sources) && (forall k :: Find(r.sources, k) == FoldFind(docs, k))
    && (exists d :: d in docs && d.discoveredAt == r.discoveredAt)
    && (forall d :: d in docs ==> r.discoveredAt <= d.discoveredAt)
    && (exists d :: d in docs && d.updatedAt == r.updatedAt)
    && (forall d :: d in docs ==> d.updatedAt <= r.updatedAt)
  }

  lemma CompatiblePrefix(identity: Identity, docs: seq<Seed>, n: nat)
    requires Compatible(identity, docs) && 0 < n <= |docs|
    ensures Compatible(identity, docs[..n])
  {
    assert forall d :: d in docs[..n] ==> d in docs;
  }

  /** Folding valid documents of one URL succeeds exactly when they have at most 100 distinct keys
      together, and yields a valid document. */
  lemma {:induction false} FoldSucceeds(identity: Identity, docs: seq<Seed>)
    requires docs != [] && Compatible(identity, docs)
    ensures MergeMany(identity, docs).Ok? <==> |AllKeys(docs)| <= 100
    ensures MergeMany(identity, docs).Ok? ==>
              var r := MergeMany(identity, docs).value;
              Valid(identity, r) && IsFold(docs, r) && Keys(r.sources) == AllKeys(docs)
  {
    hide Less, Find, MergeSources, Valid, Merge, LowestPriority, CategoryList, SortedSet, IsFold;
    var n := |docs|;
    if n == 1 {
      FoldOne(identity, docs[0]);
      assert docs == [docs[0]];
    } else {
      var front, last := docs[..n - 1], docs[n - 1];
      CompatiblePrefix(identity, docs, n - 1);
      FoldSucceeds(identity, front);
      assert last in docs;
      assert docs == front + [last];
      AllKeysSnoc(front, last);
      if MergeMany(identity, front).Ok? {
        var m := MergeMany(identity, front).value;
        IsFoldUrl(front, m);
        ValidByKey(identity, m);
        ValidByKey(identity, last);
        MergeSucceeds(identity, m, last);
        KeysOfMerge(m.sources, last.sources);
        if |MergeSources(m.sources, last.sources)| <= MAX_SOURCES {
          FoldStep(front, last, m);
        }
      } else {
        SubsetCount(AllKeys(front), AllKeys(docs));
      }
    }
  }

  lemma IsFoldUrl(docs: seq<Seed>, r: Seed)
    requires docs != [] && IsFold(docs, r)
    ensures SameUrl(r, docs[0])
  {
  }

  lemma FoldOne(identity: Identity, d: Seed)
    requires Valid(identity, d)
    ensures Merge(identity, None, d, None) == Ok(d)
    ensures MergeMany(identity, [d]) == Ok(d)
    ensures IsFold([d], d) && Keys(d.sources) == AllKeys([d]) && |AllKeys([d])| <= MAX_SOURCES
  {
    assert d in [d];
    forall k ensures Find(d.sources, k) == FoldFind([d], k) {
      FoldFindSnoc([], d, k);
      assert [] + [d] == [d] && Column([], k) == [];
    }
    KeysCount(d.sources);
    assert forall e :: e in [d] <==> e == d;
    assert Keys(d.sources) == AllKeys([d]);
  }

  lemma AllKeysSnoc(front: seq<Seed>, last: Seed)
    ensures AllKeys(front + [last]) == AllKeys(front) + Keys(last.sources)
  {
    assert forall d :: d in front + [last] <==> d in front || d == last;
  }

  lemma FoldStep(front: seq<Seed>, last: Seed, m: Seed)
    requires front != [] && IsFold(front, m) && ByKey(last.sources)
    requires MergeSources(m.sources, last.sources) != []
    ensures IsFold(front + [last], Rollup(m, last, MergeSources(m.sources, last.sources), None))
  {
    hide Less, Find, MergeSources, LowestPriority, CategoryList, SortedSet, FoldFind, ByKey;
    var docs := front + [last];
    assert forall d :: d in docs <==> d in front || d == last;
    MergeSourcesOk(m.sources, last.sources);
    var r := Rollup(m, last, MergeSources(m.sources, last.sources), None);
    forall k ensures Find(r.sources, k) == FoldFind(docs, k) {
      assert Find(m.sources, k) == FoldFind(front, k);
      FoldFindSnoc(front, last, k);
    }
    var d0 :| d0 in front && d0.discoveredAt == m.discoveredAt;
    var d1 :| d1 in front && d1.updatedAt == m.updatedAt;
    assert d0 in docs && d1 in docs && last in docs;
  }

  /** Entry j holds an observation newer than every earlier one and at least as new as every later one. */
  ghost predicate Wins(c: seq<Option<Source>>, j: nat) {
    && j < |c| && c[j].Some?
    && (forall i :: 0 <= i < j && c[i].Some? ==> c[i].value.observedAt < c[j].value.observedAt)
    && (forall i :: j < i < |c| && c[i].Some? ==> c[i].value.observedAt <= c[j].value.observedAt)
  }

  /** A winner stays one against a column's next entry that is no newer. */
  lemma WinsKept(front: seq<Option<Source>>, last: Option<Source>, j: nat)
    requires Wins(front, j) && (last.Some? ==> last.value.observedAt <= front[j].value.observedAt)
    ensures Wins(front + [last], j)
  {
  }

  /** An entry newer than the winner so far is the winner. */
  lemma WinsLast(front: seq<Option<Source>>, last: Option<Source>)
    requires last.Some?
    requires forall i :: 0 <= i < |front| && front[i].Some? ==> front[i].value.observedAt < last.value.observedAt
    ensures Wins(front + [last], |front|)
  {
  }

  lemma WinnerNewest(front: seq<Option<Source>>, j: nat)
    requires Wins(front, j)
    ensures front[j].Some?
    ensures forall i :: 0 <= i < |front| && front[i].Some? ==> front[i].value.observedAt <= front[j].value.observedAt
  {
  }

  lemma FoldPickStep(front: seq<Option<Source>>, last: Option<Source>)
    ensures FoldPick(front + [last]) == Pick(FoldPick(front), last)
  {
    assert (front + [last])[..|front|] == front;
  }

  lemma {:induction false} FoldPickWins(c: seq<Option<Source>>)
    ensures FoldPick(c).None? ==> forall i :: 0 <= i < |c| ==> c[i].None?
    ensures FoldPick(c).Some? ==> exists j :: 0 <= j < |c| && c[j] == FoldPick(c) && Wins(c, j)
  {
    if c == [] {
      return;
    }
    hide Wins, FoldPick;
    var front, last := c[..|c| - 1], c[|c| - 1];
    assert c == front + [last];
    FoldPickWins(front);
    FoldPickStep(front, last);
    if FoldPick(front).Some? {
      var j :| 0 <= j < |front| && front[j] == FoldPick(front) && Wins(front, j);
      WinnerNewest(front, j);
      if last.None? || last.value.observedAt <= front[j].value.observedAt {
        WinsKept(front, last, j);
        assert c[j] == FoldPick(c);
      } else {
        WinsLast(front, last);
        assert c[|front|] == FoldPick(c);
      }
    } else if last.Some? {
      WinsLast(front, last);
      assert c[|front|] == FoldPick(c);
    }
  }

  /** Per key, the newest observation wins, and among equally new ones the leftmost document's. */
  lemma NewestLeftmost(identity: Identity, docs: seq<Seed>, k: string)
    requires docs != [] && Compatible(identity, docs) && MergeMany(identity, docs).Ok?
    ensures var r := Find(MergeMany(identity, docs).value.sources, k);
            if r.None? then forall d :: d in docs ==> Find(d.sources, k).None?
            else exists j :: 0 <= j < |docs| && Find(docs[j].sources, k) == r && Wins(Column(docs, k), j)
  {
    hide Less, Find, Merge, MergeMany, Valid;
    FoldSucceeds(identity, docs);
    var r, c := MergeMany(identity, docs).value, Column(docs, k);
    FoldPickWins(c);
    assert Find(r.sources, k) == FoldFind(docs, k);
    if FoldPick(c).Some? {
      var j :| 0 <= j < |c| && c[j] == FoldPick(c) && Wins(c, j);
      assert Find(docs[j].sources, k) == c[j];
    } else {
      forall d | d in docs ensures Find(d.sources, k).None? {
        var i :| 0 <= i < |docs| && docs[i] == d;
        assert c[i].None?;
      }
    }
  }

  //////////////////////////////////////////////////////////////////////////////
  // The order of the documents
  //////////////////////////////////////////////////////////////////////////////

  /** Equally new sources with one key are the same source, and the documents agree on enabled. */
  ghost predicate Agree(docs: seq<Seed>) {
    && (forall d, d' :: d in docs && d' in docs ==> d.enabled == d'.enabled)
    && (forall d, d', x, x' ::
          (d in docs && d' in docs && x in d.sources && x' in d'.sources
           && x.key == x'.key && x.observedAt == x'.observedAt) ==> x == x')
  }

  /** The fold of a column is one of its observations, and none is newer. */
  lemma FoldPickNewest(c: seq<Option<Source>>)
    ensures FoldPick(c).None? ==> forall x: Source :: Some(x) !in c
    ensures FoldPick(c).Some? ==>
      FoldPick(c) in c && forall y :: Some(y) in c ==> y.observedAt <= FoldPick(c).value.observedAt
  {
    hide FoldPick, Wins;
    FoldPickWins(c);
    if FoldPick(c).Some? {
      var j :| 0 <= j < |c| && c[j] == FoldPick(c) && Wins(c, j);
      WinnerNewest(c, j);
      forall y | Some(y) in c ensures y.observedAt <= c[j].value.observedAt {
        var i :| 0 <= i < |c| && c[i] == Some(y);
      }
    }
  }

  /** The fold of a column is the only observation in it that no other one beats. */
  lemma FoldPickIs(c: seq<Option<Source>>, x: Source)
    requires Some(x) in c
    requires forall y :: Some(y) in c ==> y.observedAt < x.observedAt || y == x
    ensures FoldPick(c) == Some(x)
  {
    hide FoldPick;
    FoldPickNewest(c);
    assert FoldPick(c).Some?;
    var p := FoldPick(c).value;
    assert Some(p) in c;
  }

  lemma ColumnMember(docs: seq<Seed>, k: string, x: Source)
    ensures Some(x) in Column(docs, k) <==> exists d :: d in docs && Find(d.sources, k) == Some(x)
  {
    var c := Column(docs, k);
    if Some(x) in c {
      var i :| 0 <= i < |c| && c[i] == Some(x);
      assert docs[i] in docs;
    }
    if d :| d in docs && Find(d.sources, k) == Some(x) {
      var i :| 0 <= i < |docs| && docs[i] == d;
      assert c[i] in c;
    }
  }

  /** Columns with the same observations, no two of them equally new, fold to the same one. */
  lemma FoldPickOrder(c: seq<Option<Source>>, c': seq<Option<Source>>)
    requires forall x :: Some(x) in c <==> Some(x) in c'
    requires forall x: Source, y: Source :: Some(x) in c && Some(y) in c && x.observedAt == y.observedAt ==> x == y
    ensures FoldPick(c) == FoldPick(c')
  {
    hide FoldPick;
    FoldPickNewest(c);
    FoldPickNewest(c');
    assert FoldPick(c').Some? ==> Some(FoldPick(c').value) in c;
    if FoldPick(c).Some? {
      var x := FoldPick(c).value;
      assert Some(x) in c;
      forall y | Some(y) in c' ensures y.observedAt < x.observedAt || y == x {
        assert Some(y) in c;
      }
      FoldPickIs(c', x);
    }
  }

  lemma FoldFindOrder(docs: seq<Seed>, docs': seq<Seed>, k: string)
    requires Agree(docs) && forall d :: d in docs <==> d in docs'
    ensures FoldFind(docs, k) == FoldFind(docs', k)
  {
    hide Less, Find, FoldPick, Agree;
    var c, c' := Column(docs, k), Column(docs', k);
    forall x ensures Some(x) in c <==> Some(x) in c' {
      ColumnMember(docs, k, x);
      ColumnMember(docs', k, x);
    }
    forall x: Source, y: Source | Some(x) in c && Some(y) in c && x.observedAt == y.observedAt ensures x == y {
      AgreeColumn(docs, k, x, y);
    }
    FoldPickOrder(c, c');
  }

  lemma AgreeColumn(docs: seq<Seed>, k: string, x: Source, y: Source)
    requires Agree(docs) && Some(x) in Column(docs, k) && Some(y) in Column(docs, k)
    ensures x.observedAt == y.observedAt ==> x == y
  {
    hide Find, Column;
    ColumnMember(docs, k, x);
    ColumnMember(docs, k, y);
    var d :| d in docs && Find(d.sources, k) == Some(x);
    var d' :| d' in docs && Find(d'.sources, k) == Some(y);
  }

  /** Any two orders, repetitions included, of the same documents fold to the same document. */
  lemma FoldOrderIrrelevant(identity: Identity, docs: seq<Seed>, docs': seq<Seed>)
    requires docs != [] && Compatible(identity, docs) && Agree(docs)
    requires forall d :: d in docs <==> d in docs'
    ensures docs' != [] && MergeMany(identity, docs).Ok? == MergeMany(identity, docs').Ok?
    ensures MergeMany(identity, docs).Ok? ==> MergeMany(identity, docs) == MergeMany(identity, docs')
  {
    hide Less, Find, Valid, Merge, LowestPriority, CategoryList, SortedSet;
    assert docs[0] in docs';
    assert docs'[0] in docs;
    assert Compatible(identity, docs');
    FoldSucceeds(identity, docs);
    FoldSucceeds(identity, docs');
    assert AllKeys(docs) == AllKeys(docs');
    if MergeMany(identity, docs).Ok? {
      var r, r' := MergeMany(identity, docs).value, MergeMany(identity, docs').value;
      forall k ensures Find(r.sources, k) == Find(r'.sources, k) {
        FoldFindOrder(docs, docs', k);
      }
      ByKeyUnique(r.sources, r'.sources);
      ValidDetermined(identity, r, r');
    }
  }

  /** A valid document is determined by its URL, its switch, its sources and its two dates. */
  lemma ValidDetermined(identity: Identity, r: Seed, r': Seed)
    requires Valid(identity, r) && Valid(identity, r') && SameUrl(r, r')
    requires r.enabled == r'.enabled && r.sources == r'.sources
    requires r.discoveredAt == r'.discoveredAt && r.updatedAt == r'.updatedAt
    ensures r == r'
  {
  }
}
