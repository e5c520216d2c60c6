/** Provenance sources of a crawl seed, and their merge by key. */
module SeedSources {
  import opened Outcomes
  import opened Ordering
  import opened SeedValues

  datatype Source = Source(
    key: string,
    kind: string,
    sourceRef: string,
    rawUrl: string,
    category: string,
    priority: int,
    observedAt: int,
    metadata: map<Name, Value>)

  /** Sorted by key, without duplicate keys. */
  predicate ByKey(s: seq<Source>) {
    forall i, j :: 0 <= i < j < |s| ==> Less(s[i].key, s[j].key)
  }

  function Find(s: seq<Source>, k: string): (r: Option<Source>)
    ensures r.Some? ==> r.value in s && r.value.key == k
    ensures r.None? ==> forall x :: x in s ==> x.key != k
  {
    if s == [] then None else if s[0].key == k then Some(s[0]) else Find(s[1..], k)
  }

  lemma ByKeyFirst(s: seq<Source>)
    requires ByKey(s) && s != []
    ensures ByKey(s[1..]) && forall x :: x in s[1..] ==> Less(s[0].key, x.key) && x.key != s[0].key
  {
    forall x | x in s[1..] ensures Less(s[0].key, x.key) && x.key != s[0].key {
      var k :| 0 <= k < |s[1..]| && s[1..][k] == x;
      assert s[k + 1] == x;
      LessTotal(s[0].key, x.key);
    }
  }

  /** In a list without duplicate keys, membership and lookup say the same. */
  lemma {:induction false} FindMember(s: seq<Source>, x: Source)
    requires ByKey(s)
    ensures x in s <==> Find(s, x.key) == Some(x)
  {
    if s != [] {
      ByKeyFirst(s);
      FindMember(s[1..], x);
      assert x in s <==> x == s[0] || x in s[1..];
    }
  }

  lemma FindFirst(s: seq<Source>)
    ensures s != [] ==> exists k :: Find(s, k) == Some(s[0])
    ensures s == [] ==> forall k :: Find(s, k) == None
  {
    if s != [] { assert Find(s, s[0].key) == Some(s[0]); }
  }

  /** A list sorted by distinct keys is determined by its lookups. */
  lemma {:induction false} ByKeyUnique(s: seq<Source>, t: seq<Source>)
    requires ByKey(s) && ByKey(t)
    requires forall k :: Find(s, k) == Find(t, k)
    ensures s == t
  {
    FindFirst(s);
    FindFirst(t);
    if s != [] && t != [] {
      ByKeyFirst(s);
      ByKeyFirst(t);
      assert Find(s, s[0].key) == Find(t, s[0].key) && Find(s, t[0].key) == Find(t, t[0].key);
      LessTotal(s[0].key, t[0].key);
      assert s[0] == t[0];
      forall k ensures Find(s[1..], k) == Find(t[1..], k) {
        assert Find(s, k) == Find(t, k);
      }
      ByKeyUnique(s[1..], t[1..]);
      assert s == [s[0]] + s[1..] && t == [t[0]] + t[1..];
    }
  }

  //////////////////////////////////////////////////////////////////////////////
  // Sorting by key
  //////////////////////////////////////////////////////////////////////////////

  function KeyOf(s: Source): string { s.key }

  lemma {:induction false} InsertSource(x: Source, s: seq<Source>)
    requires ByKey(s) && Find(s, x.key) == None
    ensures ByKey(InsertByKey(x, s, KeyOf))
    ensures forall k :: Find(InsertByKey(x, s, KeyOf), k) == if k == x.key then Some(x) else Find(s, k)
  {
    if s != [] {
      LessTotal(x.key, s[0].key);
      ByKeyFirst(s);
      if Less(x.key, s[0].key) {
        forall i | 0 <= i < |s| ensures Less(x.key, s[i].key) {
          if i > 0 { LessTransitive(x.key, s[0].key, s[i].key); }
        }
      } else {
        InsertSource(x, s[1..]);
        InsertByKeyMembers(x, s[1..], KeyOf);
        var r := InsertByKey(x, s[1..], KeyOf);
        assert forall y :: y in s <==> y == s[0] || y in s[1..];
        forall i | 0 <= i < |r| ensures Less(s[0].key, r[i].key) {
          assert r[i] in r;
        }
      }
    }
  }

  predicate DistinctKeys(s: seq<Source>) {
    forall i, j :: 0 <= i < j < |s| ==> s[i].key != s[j].key
  }

  lemma {:induction false} SortSources(s: seq<Source>)
    requires DistinctKeys(s)
    ensures ByKey(SortByKey(s, KeyOf))
    ensures forall y :: y in SortByKey(s, KeyOf) <==> y in s
    ensures forall k :: Find(SortByKey(s, KeyOf), k) == Find(s, k)
  {
    if s != [] {
      SortSources(s[1..]);
      assert forall i :: 0 <= i < |s[1..]| ==> s[1..][i] == s[i + 1] && s[i + 1].key != s[0].key;
      InsertSource(s[0], SortByKey(s[1..], KeyOf));
      InsertByKeyMembers(s[0], SortByKey(s[1..], KeyOf), KeyOf);
      assert forall y :: y in s <==> y == s[0] || y in s[1..];
    }
  }

  //////////////////////////////////////////////////////////////////////////////
  // The merge
  //////////////////////////////////////////////////////////////////////////////

  /** The stored source is replaced only by a strictly newer one with the same key. */
  function Pick(stored: Option<Source>, incoming: Option<Source>): Option<Source> {
    match (stored, incoming)
    case (None, _) => incoming
    case (_, None) => stored
    case (Some(s), Some(x)) => if x.observedAt > s.observedAt then incoming else stored
  }

  /** Stored sources that survive, in order. */
  function Kept(e: seq<Source>, i: seq<Source>): seq<Source> {
    if e == [] then []
    else (if Pick(Some(e[0]), Find(i, e[0].key)) == Some(e[0]) then [e[0]] else []) + Kept(e[1..], i)
  }

  /** Incoming sources that enter, in order. */
  function Added(e: seq<Source>, i: seq<Source>): seq<Source> {
    if i == [] then []
    else
      (if Newer(i[0], Find(e, i[0].key)) then [i[0]] else []) + Added(e, i[1..])
  }

  function MergeSources(e: seq<Source>, i: seq<Source>): seq<Source> {
    SortByKey(Kept(e, i) + Added(e, i), KeyOf)
  }

  lemma ByKeyInFront(x: Source, r: seq<Source>)
    requires ByKey(r)
    ensures (forall y :: y in r ==> Less(x.key, y.key)) ==> ByKey([x] + r)
    ensures [] + r == r
  {
    hide Less;
    assert forall n :: 0 <= n < |r| ==> r[n] in r;
  }

  lemma NothingByKey()
    ensures ByKey([])
  {
  }

  lemma {:induction false} KeptSorted(e: seq<Source>, i: seq<Source>)
    requires ByKey(e)
    ensures ByKey(Kept(e, i)) && forall x :: x in Kept(e, i) ==> x in e
  {
    hide Less, Find, Pick, ByKey;
    if e != [] {
      ByKeyFirst(e);
      KeptSorted(e[1..], i);
      ByKeyInFront(e[0], Kept(e[1..], i));
    } else {
      NothingByKey();
    }
  }

  lemma {:induction false} KeptFind(e: seq<Source>, i: seq<Source>, k: string)
    requires ByKey(e)
    ensures Find(Kept(e, i), k)
            == if Find(e, k).Some? && Pick(Find(e, k), Find(i, k)) == Find(e, k) then Find(e, k) else None
  {
    hide Less, Pick;
    if e != [] {
      ByKeyFirst(e);
      KeptFind(e[1..], i, k);
      FindConcat(if Pick(Some(e[0]), Find(i, e[0].key)) == Some(e[0]) then [e[0]] else [], Kept(e[1..], i), k);
    }
  }

  predicate Newer(x: Source, stored: Option<Source>) {
    stored.None? || x.observedAt > stored.value.observedAt
  }

  lemma {:induction false} AddedSorted(e: seq<Source>, i: seq<Source>)
    requires ByKey(i)
    ensures ByKey(Added(e, i)) && forall x :: x in Added(e, i) ==> x in i
  {
    hide Less, Find, ByKey;
    if i != [] {
      ByKeyFirst(i);
      AddedSorted(e, i[1..]);
      ByKeyInFront(i[0], Added(e, i[1..]));
    } else {
      NothingByKey();
    }
  }

  lemma {:induction false} AddedFind(e: seq<Source>, i: seq<Source>, k: string)
    requires ByKey(i)
    ensures Find(Added(e, i), k)
            == if Find(i, k).Some? && Newer(Find(i, k).value, Find(e, k)) then Find(i, k) else None
  {
    hide Less;
    if i != [] {
      ByKeyFirst(i);
      AddedFind(e, i[1..], k);
      FindConcat(if Newer(i[0], Find(e, i[0].key)) then [i[0]] else [], Added(e, i[1..]), k);
    }
  }

  lemma {:induction false} FindConcat(s: seq<Source>, t: seq<Source>, k: string)
    ensures Find(s + t, k) == if Find(s, k).Some? then Find(s, k) else Find(t, k)
  {
    if s == [] {
      assert s + t == t;
    } else {
      assert (s + t)[1..] == s[1..] + t;
      FindConcat(s[1..], t, k);
    }
  }

  lemma ByKeyDistinct(s: seq<Source>)
    requires ByKey(s)
    ensures DistinctKeys(s)
  {
    forall i, j | 0 <= i < j < |s| ensures s[i].key != s[j].key {
      LessTotal(s[i].key, s[j].key);
    }
  }

  /** The merge is again sorted by distinct keys, and key by key the newest observation wins, the
      stored one on ties. */
  lemma MergeSourcesOk(e: seq<Source>, i: seq<Source>)
    requires ByKey(e) && ByKey(i)
    ensures ByKey(MergeSources(e, i))
    ensures DistinctKeys(Kept(e, i) + Added(e, i))
    ensures forall k :: Find(MergeSources(e, i), k) == Pick(Find(e, k), Find(i, k))
    ensures forall x :: x in MergeSources(e, i) ==> x in e || x in i
  {
    hide Less;
    KeptSorted(e, i);
    AddedSorted(e, i);
    var kept, added := Kept(e, i), Added(e, i);
    ByKeyDistinct(kept);
    ByKeyDistinct(added);
    forall n, m | 0 <= n < |kept| && 0 <= m < |added| ensures kept[n].key != added[m].key {
      assert kept[n] in kept && added[m] in added;
      FindMember(kept, kept[n]);
      FindMember(added, added[m]);
      KeptFind(e, i, kept[n].key);
      AddedFind(e, i, added[m].key);
    }
    SortSources(kept + added);
    forall k ensures Find(MergeSources(e, i), k) == Pick(Find(e, k), Find(i, k)) {
      FindConcat(kept, added, k);
      KeptFind(e, i, k);
      AddedFind(e, i, k);
    }
  }
}
