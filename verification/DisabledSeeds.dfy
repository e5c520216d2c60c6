/** Reconciling disabled seeds: removal in batches, and what the batch size changes. */
module DisabledSeeds {
  import opened Outcomes
  import opened Ordering
  import opened FeedQueue

  /** One URL for each identifier. */
  predicate Consistent(seeds: seq<CrawlSeed>) {
    forall i, j :: 0 <= i < j < |seeds| && seeds[i].id == seeds[j].id ==> seeds[i].url == seeds[j].url
  }

  predicate FirstAt(seeds: seq<CrawlSeed>, i: nat)
    requires i < |seeds|
  {
    forall j :: 0 <= j < i ==> seeds[j].id != seeds[i].id
  }

  /** The first seed of every identifier agrees with the stored URL. */
  predicate FirstsAgree(s: Store, seeds: seq<CrawlSeed>) {
    forall i :: 0 <= i < |seeds| && FirstAt(seeds, i) && seeds[i].id in s.urls ==> s.urls[seeds[i].id] == seeds[i].url
  }

  /** Every batch is consistent in itself. */
  predicate ConsistentBatches(seeds: seq<CrawlSeed>, n: nat, size: int)
    requires n <= |seeds|
  {
    forall k :: 0 <= k < n ==> Consistent(seeds[BatchStart(seeds, k, size)..k + 1])
  }

  predicate Usable(s: Store, seeds: seq<CrawlSeed>) { s.fault.None? || seeds == [] }

  /** reconcile_disabled_batch */
  method ReconcileBatch(redis: Redis, members: map<string, string>) returns (r: Result<nat>)
    modifies redis
    ensures r.Err? ==> redis.store == old(redis.store)
    ensures r.Ok? <==>
      |members| == 0 || (old(redis.store).fault.None? && Agrees(old(redis.store), members, members.Keys))
    ensures r.Ok? ==> r.value == |members| && redis.store == Without(old(redis.store), members.Keys)
  {
    if |members| == 0 {
      WithoutNothing(redis.store, members.Keys);
      return Ok(0);
    }
    r := redis.RemoveDisabled(members);
  }

  lemma WithoutNothing(s: Store, ids: set<string>)
    requires |ids| == 0
    ensures Without(s, ids) == s
  {
    assert ids == {};
    assert s.queue - ids == s.queue && s.urls - ids == s.urls && s.depths - ids == s.depths;
  }

  /** The pending batch holds exactly the given seeds. */
  ghost predicate Holds(pending: map<string, string>, seeds: seq<CrawlSeed>) {
    && pending.Keys == Ids(seeds)
    && forall x :: x in seeds ==> x.id in pending && pending[x.id] == x.url
  }

  lemma HoldsNext(pending: map<string, string>, seeds: seq<CrawlSeed>, x: CrawlSeed)
    requires Holds(pending, seeds) && (x.id in pending ==> pending[x.id] == x.url)
    ensures Holds(pending[x.id := x.url], seeds + [x])
  {
    assert forall y :: y in seeds + [x] <==> y in seeds || y == x;
  }

  lemma HoldsConsistent(pending: map<string, string>, seeds: seq<CrawlSeed>)
    requires Holds(pending, seeds)
    ensures Consistent(seeds)
  {
    assert forall i :: 0 <= i < |seeds| ==> seeds[i] in seeds;
  }

  /** Reading one more seed keeps the pending batch consistent unless it conflicts. */
  lemma ConflictSeen(pending: map<string, string>, seeds: seq<CrawlSeed>, m: nat, n: nat)
    requires m <= n < |seeds| && Holds(pending, seeds[m..n])
    ensures Consistent(seeds[m..n + 1]) <==> seeds[n].id !in pending || pending[seeds[n].id] == seeds[n].url
  {
    var part, x := seeds[m..n], seeds[n];
    assert seeds[m..n + 1] == part + [x];
    if x.id !in pending || pending[x.id] == x.url {
      HoldsNext(pending, part, x);
      HoldsConsistent(pending[x.id := x.url], part + [x]);
    } else {
      assert x.id in Ids(part);
      var y :| y in part && y.id == x.id;
      var k :| 0 <= k < |part| && part[k] == y;
      assert (part + [x])[k] == y && (part + [x])[|part|] == x;
    }
  }

  /** A batch goes through exactly when the first seeds up to its end agree with the original store. */
  lemma BatchAgrees(s: Store, seeds: seq<CrawlSeed>, m: nat, n: nat, pending: map<string, string>)
    requires m <= n <= |seeds| && Holds(pending, seeds[m..n]) && FirstsAgree(s, seeds[..m])
    ensures Agrees(Without(s, Ids(seeds[..m])), pending, pending.Keys) <==> FirstsAgree(s, seeds[..n])
  {
    hide Agrees, FirstsAgree, Holds, Without;
    if Agrees(Without(s, Ids(seeds[..m])), pending, pending.Keys) { AgreesExtends(s, seeds, m, n, pending); }
    if FirstsAgree(s, seeds[..n]) { FirstsMakeAgree(s, seeds, m, n, pending); }
  }

  lemma AgreesExtends(s: Store, seeds: seq<CrawlSeed>, m: nat, n: nat, pending: map<string, string>)
    requires m <= n <= |seeds| && Holds(pending, seeds[m..n]) && FirstsAgree(s, seeds[..m])
    requires Agrees(Without(s, Ids(seeds[..m])), pending, pending.Keys)
    ensures FirstsAgree(s, seeds[..n])
  {
    hide Ids, FirstAt;
    forall i | 0 <= i < n && FirstAt(seeds[..n], i) && seeds[i].id in s.urls
      ensures s.urls[seeds[i].id] == seeds[i].url
    {
      if i < m {
        FirstStays(seeds, m, n, i);
        assert seeds[..m][i] == seeds[i];
      } else {
        NotEarlier(seeds, m, n, i);
        assert seeds[m..n][i - m] == seeds[i] && seeds[i] in seeds[m..n];
      }
    }
  }

  lemma FirstStays(seeds: seq<CrawlSeed>, m: nat, n: nat, i: nat)
    requires i < m <= n <= |seeds| && FirstAt(seeds[..n], i)
    ensures FirstAt(seeds[..m], i)
  {
    forall j | 0 <= j < i ensures seeds[..m][j].id != seeds[..m][i].id { assert seeds[..n][j] == seeds[j]; }
  }

  lemma FirstsMakeAgree(s: Store, seeds: seq<CrawlSeed>, m: nat, n: nat, pending: map<string, string>)
    requires m <= n <= |seeds| && Holds(pending, seeds[m..n]) && FirstsAgree(s, seeds[..n])
    ensures Agrees(Without(s, Ids(seeds[..m])), pending, pending.Keys)
  {
    hide Ids, FirstAt;
    var t := Without(s, Ids(seeds[..m]));
    forall id | id in pending && id in t.urls ensures t.urls[id] == pending[id] {
      var i := FirstIn(seeds, m, n, id);
      assert seeds[..n][i] == seeds[i];
      assert seeds[m..n][i - m] == seeds[i] && seeds[i] in seeds[m..n];
    }
  }

  lemma NotEarlier(seeds: seq<CrawlSeed>, m: nat, n: nat, i: nat)
    requires m <= i < n <= |seeds| && FirstAt(seeds[..n], i)
    ensures seeds[i].id !in Ids(seeds[..m])
  {
    forall x | x in seeds[..m] ensures x.id != seeds[i].id {
      var k :| 0 <= k < m && seeds[k] == x;
      assert seeds[..n][k] == x;
    }
  }

  /** The first seed of an identifier that is pending but not in an earlier batch. */
  lemma FirstIn(seeds: seq<CrawlSeed>, m: nat, n: nat, id: string) returns (i: nat)
    requires m <= n <= |seeds| && id in Ids(seeds[m..n]) && id !in Ids(seeds[..m])
    ensures m <= i < n && seeds[i].id == id && FirstAt(seeds[..n], i)
  {
    forall k | 0 <= k < m ensures seeds[k].id != id { assert seeds[k] in seeds[..m]; }
    var x :| x in seeds[m..n] && x.id == id;
    var last :| m <= last < n && seeds[last] == x;
    i := m;
    while seeds[i].id != id
      invariant m <= i <= last
      invariant forall k :: 0 <= k < i ==> seeds[k].id != id
      decreases last - i
    {
      i := i + 1;
    }
  }

  lemma PrefixAgrees(s: Store, seeds: seq<CrawlSeed>, n: nat)
    requires n <= |seeds| && FirstsAgree(s, seeds)
    ensures FirstsAgree(s, seeds[..n])
  {
    forall i | 0 <= i < n && FirstAt(seeds[..n], i) ensures FirstAt(seeds, i) {
      forall j | 0 <= j < i ensures seeds[j].id != seeds[i].id { assert seeds[..n][j] == seeds[j]; }
    }
  }

  lemma IdsSplit(seeds: seq<CrawlSeed>, m: nat, n: nat)
    requires m <= n <= |seeds|
    ensures Ids(seeds[..n]) == Ids(seeds[..m]) + Ids(seeds[m..n])
  {
    assert seeds[..n] == seeds[..m] + seeds[m..n];
  }

  lemma NothingHeld(s: Store)
    ensures Holds(map[], []) && FirstsAgree(s, []) && Without(s, Ids([])) == s
  {
    WithoutNothing(s, Ids([]));
  }

  /** A reconciliation that stops with the n-th seed or at the end of its batch: what was removed are the batches
      before, and the batch so far contradicts itself or the store. */
  ghost predicate ReconcileStops(s: Store, seeds: seq<CrawlSeed>, n: nat, size: int, t: Store)
    requires 0 < n <= |seeds|
  {
    && t == Without(s, Ids(seeds[..BatchStart(seeds, n - 1, size)]))
    && !(s.fault.None? && FirstsAgree(s, seeds[..n]) && ConsistentBatches(seeds, n, size))
  }

  /** reconcile_disabled_seeds.  It succeeds exactly when the store is usable, the first seed of every identifier
      agrees with the store, and every batch is consistent in itself; and then every identifier is removed. */
  method ReconcileDisabled(redis: Redis, seeds: seq<CrawlSeed>, batchSize: int) returns (r: Result<nat>)
    modifies redis
    ensures r.Ok? <==>
      Usable(old(redis.store), seeds) && FirstsAgree(old(redis.store), seeds)
      && ConsistentBatches(seeds, |seeds|, batchSize)
    ensures r.Ok? ==> redis.store == Without(old(redis.store), Ids(seeds))
    ensures r.Ok? ==> r.value == Delivered(seeds, batchSize)
    ensures r.Err? ==>
              exists n :: 0 < n <= |seeds| && ReconcileStops(old(redis.store), seeds, n, batchSize, redis.store)
  {
    hide Consistent, FirstsAgree, Holds, Without, Agrees, Ids, BatchStart, Closed, ConsistentBatches, FirstAt;
    ghost var s := redis.store;
    NothingHeld(s);
    NothingClosed(seeds, batchSize);
    NoBatches(seeds, batchSize);
    var pending: map<string, string> := map[];
    var removed: nat := 0;
    ghost var m := 0;
    assert seeds[..0] == [] && seeds[0..0] == [];
    for n := 0 to |seeds|
      invariant m == BatchStart(seeds, n, batchSize)
      invariant m > 0 ==> s.fault.None?
      invariant redis.store == Without(s, Ids(seeds[..m])) && redis.store.fault == s.fault
      invariant FirstsAgree(s, seeds[..m]) && Holds(pending, seeds[m..n])
      invariant ConsistentBatches(seeds, n, batchSize) && removed == Closed(seeds, n, batchSize)
    {
      var seed := seeds[n];
      BatchesStep(seeds, n + 1, batchSize);
      BatchEnds(seeds, n + 1, batchSize);
      ConflictSeen(pending, seeds, m, n);
      if seed.id in pending && pending[seed.id] != seed.url {
        if ConsistentBatches(seeds, |seeds|, batchSize) { LaterBatches(seeds, n + 1, batchSize); }
        assert ReconcileStops(s, seeds, n + 1, batchSize, redis.store);
        return Err("conflicting canonical URLs");
      }
      HoldsNext(pending, seeds[m..n], seed);
      assert seeds[m..n + 1] == seeds[m..n] + [seed];
      pending := pending[seed.id := seed.url];
      HoldsCount(pending, seeds[m..n + 1]);
      if |pending| >= batchSize {
        BatchAgrees(s, seeds, m, n + 1, pending);
        Removal(s, seeds, m, n + 1, pending);
        var done := ReconcileBatch(redis, pending);
        if done.Err? {
          if FirstsAgree(s, seeds) { PrefixAgrees(s, seeds, n + 1); }
          assert ReconcileStops(s, seeds, n + 1, batchSize, redis.store);
          return done;
        }
        removed := removed + done.value;
        m, pending := n + 1, map[];
        assert seeds[m..n + 1] == [];
      }
    }
    assert seeds[..|seeds|] == seeds && seeds[m..|seeds|] == seeds[m..];
    BatchAgrees(s, seeds, m, |seeds|, pending);
    Removal(s, seeds, m, |seeds|, pending);
    HoldsCount(pending, seeds[m..]);
    if m < |seeds| { BatchEnds(seeds, |seeds|, batchSize); }
    var rest := ReconcileBatch(redis, pending);
    if rest.Err? {
      assert ReconcileStops(s, seeds, |seeds|, batchSize, redis.store);
      return rest;
    }
    return Ok(removed + rest.value);
  }

  lemma HoldsCount(pending: map<string, string>, seeds: seq<CrawlSeed>)
    requires Holds(pending, seeds)
    ensures |pending| == |Ids(seeds)|
  {
    assert |pending| == |pending.Keys|;
  }

  /** Batches of one seed are always consistent. */
  lemma SingleBatches(seeds: seq<CrawlSeed>, n: nat, size: int)
    requires size <= 1 && n <= |seeds|
    ensures BatchStart(seeds, n, size) == n && ConsistentBatches(seeds, n, size)
  {
    if n > 0 {
      SingleBatches(seeds, n - 1, size);
      assert seeds[n - 1..n] == [seeds[n - 1]] && seeds[n - 1] in seeds[n - 1..n];
      assert seeds[n - 1].id in Ids(seeds[n - 1..n]);
      assert |Ids(seeds[n - 1..n])| >= 1;
    }
  }

  /** While the identifiers so far are fewer than the batch size there is one batch, which must be consistent. */
  lemma {:induction false} OneBatch(seeds: seq<CrawlSeed>, n: nat, size: int)
    requires n <= |seeds| && |Ids(seeds[..n])| < size
    ensures BatchStart(seeds, n, size) == 0
    ensures ConsistentBatches(seeds, n, size) <==> Consistent(seeds[..n])
  {
    hide Ids, Consistent, ConsistentBatches;
    if n == 0 {
      NothingConsistent(seeds[..n]);
      NoBatches(seeds, size);
    } else {
      IdsSplit(seeds, n - 1, n);
      SubsetCount(Ids(seeds[..n - 1]), Ids(seeds[..n]));
      OneBatch(seeds, n - 1, size);
      BatchesStep(seeds, n, size);
      assert seeds[0..n] == seeds[..n];
      if Consistent(seeds[..n]) { ConsistentPrefix(seeds[..n], n - 1); assert seeds[..n][..n - 1] == seeds[..n - 1]; }
    }
  }

  lemma NothingConsistent(s: seq<CrawlSeed>)
    requires s == []
    ensures Consistent(s)
  {
  }

  lemma NoBatches(seeds: seq<CrawlSeed>, size: int)
    ensures ConsistentBatches(seeds, 0, size) && BatchStart(seeds, 0, size) == 0
  {
  }

  lemma LaterBatches(seeds: seq<CrawlSeed>, n: nat, size: int)
    requires n <= |seeds| && ConsistentBatches(seeds, |seeds|, size)
    ensures ConsistentBatches(seeds, n, size)
  {
    hide Consistent, BatchStart;
  }

  /** The batches of n seeds are those of one seed less, and the one that ends with the last of them. */
  lemma BatchesStep(seeds: seq<CrawlSeed>, n: nat, size: int)
    requires 0 < n <= |seeds|
    ensures ConsistentBatches(seeds, n, size) <==>
      ConsistentBatches(seeds, n - 1, size) && Consistent(seeds[BatchStart(seeds, n - 1, size)..n])
  {
    hide Consistent, BatchStart;
  }

  lemma ConsistentPrefix(seeds: seq<CrawlSeed>, n: nat)
    requires n <= |seeds| && Consistent(seeds)
    ensures Consistent(seeds[..n])
  {
  }

  /** What is left after removing a batch as well. */
  lemma Removal(s: Store, seeds: seq<CrawlSeed>, m: nat, n: nat, pending: map<string, string>)
    requires m <= n <= |seeds| && Holds(pending, seeds[m..n])
    ensures Without(Without(s, Ids(seeds[..m])), pending.Keys) == Without(s, Ids(seeds[..n]))
    ensures Without(s, Ids(seeds[..n])).fault == s.fault
    ensures |pending| == 0 <==> m == n
  {
    IdsSplit(seeds, m, n);
    WithoutTwice(s, Ids(seeds[..m]), pending.Keys);
    hide Without;
    FaultKept(s, Ids(seeds[..n]));
    if m < n {
      assert seeds[m..n][0] in seeds[m..n] && seeds[m].id in pending;
    } else {
      assert seeds[m..n] == [];
      assert Ids([]) == {};
    }
  }

  lemma FaultKept(s: Store, ids: set<string>)
    ensures Without(s, ids).fault == s.fault
  {
  }

  /** The same two seeds against the same store: one batch at a time they pass, in one batch they do not. */
  method BatchSizeMatters(a: string, u: string, v: string) returns (single: Result<nat>, together: Result<nat>)
    requires u != v
    ensures single.Ok? && together.Err?
  {
    hide FirstsAgree, Consistent, BatchStart, ConsistentBatches;
    var store := Store(map[], map[a := u], map[], None);
    var seeds := [CrawlSeed(a, u, 1), CrawlSeed(a, v, 1)];
    SecondIgnored(store, a, u, v);
    SingleBatches(seeds, 2, 1);
    OneIdentifier(seeds, a);
    assert seeds[..2] == seeds;
    OneBatch(seeds, 2, 2);
    var one := new Redis(store);
    single := ReconcileDisabled(one, seeds, 1);
    var other := new Redis(store);
    together := ReconcileDisabled(other, seeds, 2);
  }

  lemma OneIdentifier(seeds: seq<CrawlSeed>, a: string)
    requires forall x :: x in seeds ==> x.id == a
    ensures |Ids(seeds)| <= 1
  {
    SubsetCount(Ids(seeds), {a});
  }

  lemma SecondIgnored(store: Store, a: string, u: string, v: string)
    requires u != v && store.fault.None? && store.urls == map[a := u]
    ensures var seeds := [CrawlSeed(a, u, 1), CrawlSeed(a, v, 1)];
      FirstsAgree(store, seeds) && !Consistent(seeds)
  {
    var seeds := [CrawlSeed(a, u, 1), CrawlSeed(a, v, 1)];
    assert !FirstAt(seeds, 1) by { assert seeds[0].id == seeds[1].id; }
    assert seeds[0].id == seeds[1].id && seeds[0].url != seeds[1].url;
  }
}
