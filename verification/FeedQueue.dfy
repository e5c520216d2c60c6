/** The two atomic queue scripts and the batching loop that drives them. */
module FeedQueue {
  import opened Outcomes
  import opened Ordering
  import opened Texts

  const MAX_DEPTH: nat := 9_007_199_254_740_991

  /** A sorted-set score; infinities are legal in the store but refused by the scripts. */
  datatype Score = Finite(r: real) | NotFinite

  /** The queue, the URL map and the depth map.  fault is the rejection when one of the three keys
      holds another type of value. */
  datatype Store = Store(queue: map<string, Score>, urls: map<string, string>, depths: map<string, string>,
                         fault: Option<string>)

  datatype Entry = Entry(id: string, url: string, score: Score, depth: string)

  //////////////////////////////////////////////////////////////////////////////
  // The scripts
  //////////////////////////////////////////////////////////////////////////////

  /** parse_canonical_depth */
  function ParseDepth(s: string): Option<nat> {
    if s == "0" then Some(0)
    else if s == "" || s[0] == '0' || Digits(s).None? || Digits(s).value > MAX_DEPTH then None
    else Digits(s)
  }

  /** A depth is the decimal text of a number that a double holds exactly. */
  lemma DepthIs(s: string, n: nat)
    ensures ParseDepth(s) == Some(n) <==> s == Decimal(n) && n <= 9_007_199_254_740_991
  {
    hide Decimal, Value;
    CanonicalDecimalIs(s, n);
    ZeroText();
  }

  function CheckEntry(s: Store, e: Entry): Option<string> {
    if e.id in s.urls && s.urls[e.id] != e.url then Some("URL_ID_COLLISION")
    else if !e.score.Finite? then Some("INVALID_QUEUE_SCORE")
    else if e.id in s.queue && !s.queue[e.id].Finite? then Some("INVALID_EXISTING_SCORE")
    else if ParseDepth(e.depth).None? then Some("INVALID_CRAWL_DEPTH")
    else if e.id in s.depths && ParseDepth(s.depths[e.id]).None? then Some("INVALID_EXISTING_DEPTH")
    else None
  }

  function FirstFault(s: Store, entries: seq<Entry>): Option<string> {
    if entries == [] then None
    else if FirstFault(s, entries[..|entries| - 1]).Some? then FirstFault(s, entries[..|entries| - 1])
    else CheckEntry(s, entries[|entries| - 1])
  }

  predicate ScoreLess(a: Score, b: Score) {
    a.Finite? && b.Finite? && a.r < b.r
  }

  predicate DepthLess(a: string, b: string) {
    ParseDepth(a).Some? && ParseDepth(b).Some? && ParseDepth(a).value < ParseDepth(b).value
  }

  /** The writes for one entry: keep the lower score and the shallower depth. */
  function Put(s: Store, e: Entry): Store {
    var had := e.id in s.queue;
    Store(
      if !had || ScoreLess(e.score, s.queue[e.id]) then s.queue[e.id := e.score] else s.queue,
      s.urls[e.id := e.url],
      if !had || e.id !in s.depths || DepthLess(e.depth, s.depths[e.id]) then s.depths[e.id := e.depth] else s.depths,
      s.fault)
  }

  function PutAll(s: Store, entries: seq<Entry>): Store {
    if entries == [] then s else Put(PutAll(s, entries[..|entries| - 1]), entries[|entries| - 1])
  }

  function Without(s: Store, ids: set<string>): Store {
    Store(s.queue - ids, s.urls - ids, s.depths - ids, s.fault)
  }

  class Redis {
    var store: Store

    constructor (store: Store)
      ensures this.store == store
    {
      this.store := store;
    }

    /** ENQUEUE: everything is checked before anything is written. */
    method Enqueue(entries: seq<Entry>) returns (r: Result<nat>)
      modifies this
      ensures r.Err? ==> store == old(store)
      ensures r.Ok? <==> old(store).fault.None? && FirstFault(old(store), entries).None?
      ensures r.Ok? ==> r.value == |entries| && store == PutAll(old(store), entries)
    {
      if store.fault.Some? {
        return Err(store.fault.value);
      }
      for n := 0 to |entries|
        invariant store == old(store) && FirstFault(store, entries[..n]).None?
      {
        assert entries[..n + 1][..n] == entries[..n];
        var fault := CheckEntry(store, entries[n]);
        if fault.Some? {
          FaultPersists(store, entries, n + 1);
          return Err(fault.value);
        }
      }
      assert entries[..|entries|] == entries;
      for n := 0 to |entries|
        invariant store == PutAll(old(store), entries[..n])
      {
        assert entries[..n + 1][..n] == entries[..n];
        store := Put(store, entries[n]);
      }
      return Ok(|entries|);
    }

    /** REMOVE_DISABLED: nothing is removed unless every stored URL agrees. */
    method RemoveDisabled(members: map<string, string>) returns (r: Result<nat>)
      modifies this
      ensures r.Err? ==> store == old(store)
      ensures r.Ok? <==> old(store).fault.None? && Agrees(old(store), members, members.Keys)
      ensures r.Ok? ==> r.value == |members| && store == Without(old(store), members.Keys)
    {
      if store.fault.Some? {
        return Err(store.fault.value);
      }
      var left := members.Keys;
      while left != {}
        invariant left <= members.Keys && Agrees(store, members, members.Keys - left)
      {
        var id :| id in left;
        if id in store.urls && store.urls[id] != members[id] {
          return Err("URL_ID_COLLISION");
        }
        left := left - {id};
      }
      assert members.Keys - left == members.Keys;
      RemoveMembers(members.Keys);
      return Ok(|members|);
    }

    method RemoveMembers(ids: set<string>)
      modifies this
      ensures store == Without(old(store), ids)
    {
      var left := ids;
      while left != {}
        invariant left <= ids
        invariant store == Without(old(store), ids - left)
      {
        hide Without;
        var id :| id in left;
        WithoutTwice(old(store), ids - left, {id});
        assert ids - left + {id} == ids - (left - {id});
        store := Without(store, {id});
        left := left - {id};
      }
      assert ids - left == ids;
    }
  }

  /** No member has another URL stored. */
  ghost predicate Agrees(s: Store, members: map<string, string>, ids: set<string>)
    requires ids <= members.Keys
  {
    forall id :: id in ids && id in s.urls ==> s.urls[id] == members[id]
  }

  lemma WithoutTwice(s: Store, a: set<string>, b: set<string>)
    ensures Without(Without(s, a), b) == Without(s, a + b)
  {
  }

  lemma {:induction false} FaultPersists(s: Store, entries: seq<Entry>, n: nat)
    requires n <= |entries| && FirstFault(s, entries[..n]).Some?
    ensures FirstFault(s, entries).Some?
    decreases |entries| - n
  {
    if n < |entries| {
      assert entries[..n + 1][..n] == entries[..n];
      FaultPersists(s, entries, n + 1);
    } else {
      assert entries[..n] == entries;
    }
  }

  /** The entries that a script run accepts. */
  lemma {:induction false} EnqueueAccepts(s: Store, entries: seq<Entry>)
    ensures FirstFault(s, entries).None? <==>
      forall e :: e in entries ==>
        && (e.id in s.urls ==> s.urls[e.id] == e.url)
        && e.score.Finite? && (e.id in s.queue ==> s.queue[e.id].Finite?)
        && ParseDepth(e.depth).Some? && (e.id in s.depths ==> ParseDepth(s.depths[e.id]).Some?)
  {
    hide ParseDepth;
    if entries != [] {
      var front, last := entries[..|entries| - 1], entries[|entries| - 1];
      EnqueueAccepts(s, front);
      assert forall e :: e in entries <==> e in front || e == last;
    }
  }

  //////////////////////////////////////////////////////////////////////////////
  // What every script run keeps
  //////////////////////////////////////////////////////////////////////////////

  /** Every queued identifier has a URL and a depth. */
  ghost predicate Mapped(s: Store) {
    forall id :: id in s.queue ==> id in s.urls && id in s.depths
  }

  /** Nothing queued is lost, moved back, or sunk deeper. */
  ghost predicate NeverWorse(s: Store, t: Store) {
    && (forall id :: id in s.queue ==> id in t.queue)
    && (forall id :: id in s.queue && s.queue[id].Finite? ==> t.queue[id].Finite? && t.queue[id].r <= s.queue[id].r)
    && (forall id :: id in s.queue && id in s.depths && ParseDepth(s.depths[id]).Some? ==>
          && id in t.depths && ParseDepth(t.depths[id]).Some?
          && ParseDepth(t.depths[id]).value <= ParseDepth(s.depths[id]).value)
  }

  lemma PutKeeps(s: Store, e: Entry)
    requires Mapped(s)
    ensures Mapped(Put(s, e)) && NeverWorse(s, Put(s, e))
  {
  }

  lemma {:induction false} EnqueueKeeps(s: Store, entries: seq<Entry>)
    requires Mapped(s)
    ensures Mapped(PutAll(s, entries)) && NeverWorse(s, PutAll(s, entries))
  {
    hide ParseDepth, Put;
    if entries != [] {
      var front, last := entries[..|entries| - 1], entries[|entries| - 1];
      EnqueueKeeps(s, front);
      PutKeeps(PutAll(s, front), last);
    }
  }

  lemma RemoveKeeps(s: Store, ids: set<string>)
    requires Mapped(s)
    ensures Mapped(Without(s, ids))
  {
  }

  /** Removal takes the score, the URL and the depth of each identifier, and nothing else. */
  lemma RemovedAre(s: Store, ids: set<string>, id: string)
    ensures var t := Without(s, ids);
      if id in ids then id !in t.queue && id !in t.urls && id !in t.depths else SameAt(s, t, id)
  {
  }

  //////////////////////////////////////////////////////////////////////////////
  // Feeding
  //////////////////////////////////////////////////////////////////////////////

  datatype CrawlSeed = CrawlSeed(id: string, url: string, priority: int)

  /** Identifier to URL and score. */
  type Batch = map<string, (string, real)>

  function RedisScore(priority: int): Option<real> {
    if 1 <= priority <= 3 then Some((priority - 1) as real) else None
  }

  /** Add one seed to a batch, keeping the lowest score. */
  function Include(b: Batch, x: CrawlSeed): Batch {
    var score := RedisScore(x.priority).GetOr(0.0);
    if x.id !in b || score < b[x.id].1 then b[x.id := (x.url, score)] else b
  }

  function Summary(seeds: seq<CrawlSeed>): Batch {
    if seeds == [] then map[] else Include(Summary(seeds[..|seeds| - 1]), seeds[|seeds| - 1])
  }

  /** At identifier id, s and t hold the same. */
  ghost predicate SameAt(s: Store, t: Store, id: string) {
    && (id in t.urls <==> id in s.urls) && (id in s.urls ==> t.urls[id] == s.urls[id])
    && (id in t.depths <==> id in s.depths) && (id in s.depths ==> t.depths[id] == s.depths[id])
    && (id in t.queue <==> id in s.queue) && (id in s.queue ==> t.queue[id] == s.queue[id])
  }

  /** At identifier id, t is s with the given URL, depth 0, and the lower of the two scores. */
  ghost predicate FedAt(s: Store, t: Store, id: string, url: string, score: real) {
    && id in t.urls && t.urls[id] == url
    && id in t.depths && t.depths[id] == "0"
    && id in t.queue
    && t.queue[id] == (if id in s.queue && s.queue[id].Finite? && s.queue[id].r <= score then s.queue[id]
                       else Finite(score))
  }

  ghost predicate AppliedAt(s: Store, b: Batch, t: Store, id: string) {
    if id in b then FedAt(s, t, id, b[id].0, b[id].1) else SameAt(s, t, id)
  }

  /** t is s with batch b fed into it, and nothing else touched. */
  ghost predicate Applied(s: Store, b: Batch, t: Store) {
    t.fault == s.fault && forall id :: AppliedAt(s, b, t, id)
  }

  /** The stored data of id admits a feed of url. */
  predicate Admits(s: Store, id: string, url: string) {
    && (id in s.urls ==> s.urls[id] == url)
    && (id in s.queue ==> s.queue[id].Finite?)
    && (id in s.depths ==> ParseDepth(s.depths[id]).Some?)
  }

  ghost predicate AdmitsBatch(s: Store, b: Batch) {
    forall id :: id in b ==> Admits(s, id, b[id].0)
  }

  /** Valid priorities, and one URL for each identifier. */
  ghost predicate Clean(seeds: seq<CrawlSeed>) {
    && (forall x :: x in seeds ==> 1 <= x.priority <= 3)
    && (forall x, y :: x in seeds && y in seeds && x.id == y.id ==> x.url == y.url)
  }

  /** The condition, checkable before feeding, under which a feed succeeds. */
  ghost predicate Feedable(s: Store, seeds: seq<CrawlSeed>) {
    && Clean(seeds)
    && (s.fault.None? || seeds == [])
    && (forall x :: x in seeds ==> Admits(s, x.id, x.url))
  }

  /** b holds, for exactly the identifiers of the seeds, their URL and their least score. */
  ghost predicate Summarises(b: Batch, seeds: seq<CrawlSeed>) {
    && (forall x :: x in seeds ==> x.id in b && b[x.id].0 == x.url && b[x.id].1 <= ScoreOf(x))
    && (forall id :: id in b ==> Attained(b, seeds, id))
  }

  ghost predicate Attained(b: Batch, seeds: seq<CrawlSeed>, id: string)
    requires id in b
  {
    exists x :: x in seeds && x.id == id && ScoreOf(x) == b[id].1
  }

  function ScoreOf(x: CrawlSeed): real {
    RedisScore(x.priority).GetOr(0.0)
  }

  lemma {:induction false} SummaryOk(seeds: seq<CrawlSeed>)
    requires Clean(seeds)
    ensures Summarises(Summary(seeds), seeds)
  {
    hide ScoreOf;
    if seeds != [] {
      var front, x := seeds[..|seeds| - 1], seeds[|seeds| - 1];
      assert seeds == front + [x];
      SummaryOk(front);
      IncludeSummarises(Summary(front), front, x);
    }
  }

  lemma IncludeSummarises(b: Batch, front: seq<CrawlSeed>, x: CrawlSeed)
    requires Summarises(b, front) && Clean(front + [x])
    ensures Summarises(Include(b, x), front + [x])
  {
    hide RedisScore;
    var c, seeds := Include(b, x), front + [x];
    assert forall y :: y in seeds <==> y in front || y == x;
    if x.id in b {
      var w :| w in front && w.id == x.id && ScoreOf(w) == b[x.id].1;
      assert w in seeds && x in seeds;
    }
    forall id | id in c ensures Attained(c, seeds, id) {
      if id in b && c[id] == b[id] {
        var w :| w in front && w.id == id && ScoreOf(w) == b[id].1;
        assert w in seeds;
      } else {
        assert id == x.id && x in seeds;
      }
    }
  }

  /** Summaries see only which seeds there are, not their order or how often they occur. */
  lemma SummaryUnique(b: Batch, c: Batch, seeds: seq<CrawlSeed>, other: seq<CrawlSeed>)
    requires Summarises(b, seeds) && Summarises(c, other)
    requires forall x :: x in seeds <==> x in other
    ensures b == c
  {
    hide ScoreOf;
    forall id ensures id in b <==> id in c {
      if id in b { assert Attained(b, seeds, id); }
      if id in c { assert Attained(c, other, id); }
    }
    forall id | id in b ensures b[id] == c[id] {
      assert Attained(b, seeds, id) && Attained(c, other, id);
    }
  }

  /** Feeding a and then b is feeding a and b together. */
  lemma AppliedTwice(s: Store, a: seq<CrawlSeed>, t: Store, b: seq<CrawlSeed>, u: Store)
    requires Clean(a + b)
    requires forall x :: x in a ==> Admits(s, x.id, x.url)
    requires Applied(s, Summary(a), t) && Applied(t, Summary(b), u)
    ensures Applied(s, Summary(a + b), u)
  {
    hide Summary, RedisScore, ScoreOf;
    CleanParts(a, b);
    SummaryOk(a);
    SummaryOk(b);
    SummaryOk(a + b);
    forall id ensures AppliedAt(s, Summary(a + b), u, id) {
      AppliedTwiceAt(s, a, t, b, u, id, Summary(a), Summary(b), Summary(a + b));
    }
  }

  lemma CleanParts(a: seq<CrawlSeed>, b: seq<CrawlSeed>)
    requires Clean(a + b)
    ensures Clean(a) && Clean(b)
    ensures forall x :: x in a + b <==> x in a || x in b
  {
    assert forall x :: x in a + b <==> x in a || x in b;
  }

  lemma AppliedTwiceAt(s: Store, a: seq<CrawlSeed>, t: Store, b: seq<CrawlSeed>, u: Store, id: string,
                       ba: Batch, bb: Batch, bc: Batch)
    requires Clean(a + b)
    requires Summarises(ba, a) && Summarises(bb, b) && Summarises(bc, a + b)
    requires AppliedAt(s, ba, t, id) && AppliedAt(t, bb, u, id)
    ensures AppliedAt(s, bc, u, id)
  {
    SummaryOfBoth(a, b, id, ba, bb, bc);
    hide Clean, Summarises;
  }

  /** The summary of two parts has, for each identifier, the lower of their scores. */
  lemma SummaryOfBoth(a: seq<CrawlSeed>, b: seq<CrawlSeed>, id: string, ba: Batch, bb: Batch, bc: Batch)
    requires Clean(a + b)
    requires Summarises(ba, a) && Summarises(bb, b) && Summarises(bc, a + b)
    ensures id in bc <==> id in ba || id in bb
    ensures id in ba ==> bc[id].0 == ba[id].0 && bc[id].1 <= ba[id].1
    ensures id in bb ==> bc[id].0 == bb[id].0 && bc[id].1 <= bb[id].1
    ensures id in bc ==> (id in ba && bc[id].1 == ba[id].1) || (id in bb && bc[id].1 == bb[id].1)
  {
    hide RedisScore, ScoreOf, Clean;
    CleanParts(a, b);
    if id in ba { assert Attained(ba, a, id); }
    if id in bb { assert Attained(bb, b, id); }
    if id in bc { assert Attained(bc, a + b, id); }
  }

  /** Applied leaves no freedom. */
  lemma AppliedUnique(s: Store, b: Batch, t: Store, u: Store)
    requires Applied(s, b, t) && Applied(s, b, u)
    ensures t == u
  {
    forall id
      ensures id in t.urls <==> id in u.urls
      ensures id in t.depths <==> id in u.depths
      ensures id in t.queue <==> id in u.queue
      ensures id in t.urls ==> t.urls[id] == u.urls[id]
      ensures id in t.depths ==> t.depths[id] == u.depths[id]
      ensures id in t.queue ==> t.queue[id] == u.queue[id]
    {
      assert AppliedAt(s, b, t, id) && AppliedAt(s, b, u, id);
    }
    assert t.urls == u.urls && t.depths == u.depths && t.queue == u.queue;
  }

  //////////////////////////////////////////////////////////////////////////////
  // One batch
  //////////////////////////////////////////////////////////////////////////////

  function EntryOf(b: Batch, id: string): Entry
    requires id in b
  {
    Entry(id, b[id].0, Finite(b[id].1), "0")
  }

  /** The script arguments of a batch, in the order of ids. */
  function EntriesOf(b: Batch, ids: seq<string>): (r: seq<Entry>)
    requires forall id :: id in ids ==> id in b
  {
    if ids == [] then []
    else
      assert forall id :: id in ids[..|ids| - 1] ==> id in ids;
      EntriesOf(b, ids[..|ids| - 1]) + [EntryOf(b, ids[|ids| - 1])]
  }

  lemma {:induction false} EntriesChecked(s: Store, b: Batch, ids: seq<string>)
    requires forall id :: id in ids ==> id in b
    ensures FirstFault(s, EntriesOf(b, ids)).None? <==> forall id :: id in ids ==> Admits(s, id, b[id].0)
    ensures |EntriesOf(b, ids)| == |ids|
  {
    hide ParseDepth;
    if ids != [] {
      var front, last := ids[..|ids| - 1], ids[|ids| - 1];
      assert ids == front + [last];
      EntriesChecked(s, b, front);
      var es := EntriesOf(b, ids);
      assert es[..|es| - 1] == EntriesOf(b, front);
      ZeroParses();
      assert CheckEntry(s, EntryOf(b, last)).None? <==> Admits(s, last, b[last].0);
    }
  }

  lemma ZeroParses()
    ensures ParseDepth("0") == Some(0)
  {
  }

  /** Writing distinct checked entries feeds exactly their identifiers. */
  lemma {:induction false} EntriesApplied(s: Store, b: Batch, ids: seq<string>)
    requires forall id :: id in ids ==> id in b
    requires forall i, j :: 0 <= i < j < |ids| ==> ids[i] != ids[j]
    requires forall id :: id in ids ==> Admits(s, id, b[id].0)
    ensures var t := PutAll(s, EntriesOf(b, ids));
      && t.fault == s.fault
      && (forall id :: id in ids ==> FedAt(s, t, id, b[id].0, b[id].1))
      && (forall id :: id !in ids ==> SameAt(s, t, id))
  {
    hide ParseDepth, Put, FedAt, SameAt, Admits;
    if ids != [] {
      var front, last := ids[..|ids| - 1], ids[|ids| - 1];
      assert ids == front + [last];
      assert forall id :: id in ids <==> id in front || id == last;
      EntriesApplied(s, b, front);
      var es := EntriesOf(b, ids);
      assert es[..|es| - 1] == EntriesOf(b, front);
      var t := PutAll(s, EntriesOf(b, front));
      PutFeeds(s, t, EntryOf(b, last), b[last].1);
      forall id | id != last
        ensures id in front ==> FedAt(s, Put(t, EntryOf(b, last)), id, b[id].0, b[id].1)
        ensures id !in front ==> SameAt(s, Put(t, EntryOf(b, last)), id)
      {
        PutElsewhere(s, t, EntryOf(b, last), id);
        if id in front {
          assert FedAt(s, Put(t, EntryOf(b, last)), id, b[id].0, b[id].1);
        }
      }
    } else {
      assert forall id :: SameAt(s, s, id) by {
        forall id ensures SameAt(s, s, id) { SameRefl(s, id); }
      }
    }
  }

  lemma SameRefl(s: Store, id: string)
    ensures SameAt(s, s, id)
  {
  }

  lemma PutFeeds(s: Store, t: Store, e: Entry, score: real)
    requires SameAt(s, t, e.id) && e.score == Finite(score) && e.depth == "0" && Admits(s, e.id, e.url)
    ensures FedAt(s, Put(t, e), e.id, e.url, score)
    ensures Put(t, e).fault == t.fault
  {
    ZeroParses();
    if e.id in t.depths && ParseDepth(t.depths[e.id]) == Some(0) {
      OnlyZeroIsZero(t.depths[e.id]);
    }
    hide Digits, ParseDepth;
  }

  /** A canonical depth of value 0 is the text "0". */
  lemma OnlyZeroIsZero(d: string)
    requires ParseDepth(d) == Some(0)
    ensures d == "0"
  {
    if d != "0" {
      DecimalOfValue(d);
    }
  }

  lemma PutElsewhere(s: Store, t: Store, e: Entry, id: string)
    requires id != e.id
    ensures SameAt(s, t, id) ==> SameAt(s, Put(t, e), id)
    ensures forall url: string, score: real {:trigger FedAt(s, Put(t, e), id, url, score)} ::
      FedAt(s, t, id, url, score) ==> FedAt(s, Put(t, e), id, url, score)
  {
    PutSame(t, e, id);
    hide Put;
  }

  lemma PutSame(t: Store, e: Entry, id: string)
    requires id != e.id
    ensures SameAt(t, Put(t, e), id)
  {
    hide ParseDepth;
  }

  /** sorted(keys) */
  method SortedKeys(keys: set<string>) returns (ids: seq<string>)
    ensures Increasing(ids) && forall id :: id in ids <==> id in keys
    ensures |ids| == |keys|
  {
    ids := [];
    var left := keys;
    while left != {}
      invariant left <= keys && |ids| == |keys| - |left|
      invariant Increasing(ids) && forall id :: id in ids <==> id in keys && id !in left
    {
      var id :| id in left;
      InsertStringSorted(id, ids);
      InsertStringLength(id, ids);
      ids := InsertString(id, ids);
      left := left - {id};
    }
  }

  lemma {:induction false} InsertStringLength(x: string, s: seq<string>)
    requires x !in s
    ensures |InsertString(x, s)| == |s| + 1
  {
    if s != [] && !Less(x, s[0]) {
      InsertStringLength(x, s[1..]);
    }
  }

  lemma IncreasingDistinct(s: seq<string>)
    requires Increasing(s)
    ensures forall i, j :: 0 <= i < j < |s| ==> s[i] != s[j]
  {
    forall i, j | 0 <= i < j < |s| ensures s[i] != s[j] {
      LessTotal(s[i], s[j]);
    }
  }

  /** enqueue_batch: all of the batch is fed, or nothing is. */
  method EnqueueBatch(redis: Redis, b: Batch) returns (r: Result<nat>)
    modifies redis
    ensures r.Ok? <==> |b| == 0 || (old(redis.store).fault.None? && AdmitsBatch(old(redis.store), b))
    ensures r.Ok? ==> r.value == |b| && Applied(old(redis.store), b, redis.store)
    ensures r.Err? ==> redis.store == old(redis.store)
  {
    hide Admits, Increasing, FirstFault, PutAll, FedAt, SameAt;
    if |b| == 0 {
      assert forall id :: SameAt(redis.store, redis.store, id) by {
        forall id ensures SameAt(redis.store, redis.store, id) { SameRefl(redis.store, id); }
      }
      return Ok(0);
    }
    ghost var s := redis.store;
    var ids := SortedKeys(b.Keys);
    IncreasingDistinct(ids);
    EntriesChecked(s, b, ids);
    r := redis.Enqueue(EntriesOf(b, ids));
    if r.Ok? {
      EntriesApplied(s, b, ids);
    }
  }

  //////////////////////////////////////////////////////////////////////////////
  // The feeding loop
  //////////////////////////////////////////////////////////////////////////////

  ghost predicate FedUpTo(s: Store, seeds: seq<CrawlSeed>, m: nat, t: Store)
    requires m <= |seeds|
  {
    Feedable(s, seeds[..m]) && Applied(s, Summary(seeds[..m]), t)
  }

  /** A batch collected after a feed is accepted exactly when the whole prefix is feedable. */
  lemma FlushAccepted(s: Store, a: seq<CrawlSeed>, t: Store, b: seq<CrawlSeed>)
    requires Feedable(s, a) && Applied(s, Summary(a), t) && Clean(b) && b != []
    ensures t.fault.None? && AdmitsBatch(t, Summary(b)) <==> Feedable(s, a + b)
  {
    hide Summary, RedisScore, ScoreOf, Admits, AppliedAt;
    SummaryOk(a);
    SummaryOk(b);
    assert a + b != [] && forall x :: x in a + b <==> x in a || x in b;
    forall x | x in b
      ensures Admits(t, x.id, x.url) <==>
              Admits(s, x.id, x.url) && forall y :: y in a && y.id == x.id ==> y.url == x.url
    {
      AdmitsAfter(s, a, t, x.id, x.url);
    }
    if t.fault.None? && AdmitsBatch(t, Summary(b)) {
      forall x | x in b ensures Admits(t, x.id, x.url) {
        assert x.id in Summary(b);
      }
    }
    if Feedable(s, a + b) {
      forall id | id in Summary(b) ensures Admits(t, id, Summary(b)[id].0) {
        assert Attained(Summary(b), b, id);
      }
    }
  }

  /** After feeding a, an identifier admits what it admitted before, if a agrees on its URL. */
  lemma AdmitsAfter(s: Store, a: seq<CrawlSeed>, t: Store, id: string, url: string)
    requires Feedable(s, a) && Applied(s, Summary(a), t)
    ensures Admits(t, id, url) <==> Admits(s, id, url) && forall y :: y in a && y.id == id ==> y.url == url
  {
    hide Summary, RedisScore, ScoreOf, ParseDepth;
    ZeroParses();
    SummaryOk(a);
    assert AppliedAt(s, Summary(a), t, id);
    if id in Summary(a) {
      assert Attained(Summary(a), a, id);
    }
  }

  /** A feedable sequence has feedable parts. */
  lemma FeedablePrefix(s: Store, seeds: seq<CrawlSeed>, n: nat)
    requires n <= |seeds| && Feedable(s, seeds)
    ensures Feedable(s, seeds[..n])
  {
    assert forall x :: x in seeds[..n] ==> x in seeds;
  }

  lemma EmptyFeed(s: Store)
    ensures Feedable(s, []) && Applied(s, Summary([]), s)
  {
    forall id ensures SameAt(s, s, id) { SameRefl(s, id); }
  }

  lemma SummaryGrows(seen: seq<CrawlSeed>, x: CrawlSeed)
    ensures Summary(seen + [x]) == Include(Summary(seen), x)
  {
    assert (seen + [x])[..|seen|] == seen;
  }

  /** A seed agrees with the seeds before it exactly when it agrees with their summary. */
  lemma CleanGrows(seen: seq<CrawlSeed>, x: CrawlSeed)
    requires Clean(seen)
    ensures var b := Summary(seen);
      Clean(seen + [x]) <==> 1 <= x.priority <= 3 && (x.id in b ==> b[x.id].0 == x.url)
  {
    SummaryOk(seen);
    hide Summary;
    var b := Summary(seen);
    assert forall y :: y in seen + [x] <==> y in seen || y == x;
    if x.id in b { assert Attained(b, seen, x.id); }
  }

  /** Reading one seed into the pending batch. */
  method Collect(pending: Batch, x: CrawlSeed, ghost seen: seq<CrawlSeed>) returns (r: Result<Batch>)
    requires Clean(seen) && pending == Summary(seen)
    ensures r.Ok? <==> Clean(seen + [x])
    ensures r.Ok? ==> r.value == Summary(seen + [x])
  {
    hide Clean, Summary;
    SummaryGrows(seen, x);
    CleanGrows(seen, x);
    var score := RedisScore(x.priority);
    if score.None? {
      return Err("priority must be 1, 2, or 3");
    }
    if x.id in pending && pending[x.id].0 != x.url {
      return Err("conflicting canonical URLs");
    }
    if x.id !in pending || score.value < pending[x.id].1 {
      return Ok(pending[x.id := (x.url, score.value)]);
    }
    return Ok(pending);
  }

  lemma NotCleanInside(s: Store, seeds: seq<CrawlSeed>, m: nat, n: nat)
    requires m <= n <= |seeds| && !Clean(seeds[m..n])
    ensures !Feedable(s, seeds)
  {
    assert forall x :: x in seeds[m..n] ==> x in seeds;
  }

  lemma FlushStep(s: Store, seeds: seq<CrawlSeed>, m: nat, n: nat, t: Store, pending: Batch)
    requires m < n <= |seeds| && FedUpTo(s, seeds, m, t)
    requires Clean(seeds[m..n]) && pending == Summary(seeds[m..n])
    ensures |pending| > 0
    ensures t.fault.None? && AdmitsBatch(t, pending) <==> Feedable(s, seeds[..n])
    ensures !Feedable(s, seeds[..n]) ==> !Feedable(s, seeds)
    ensures forall u :: Feedable(s, seeds[..n]) && Applied(t, pending, u) ==> FedUpTo(s, seeds, n, u)
  {
    hide Summary, Admits, AppliedAt, RedisScore, ScoreOf;
    var a, b := seeds[..m], seeds[m..n];
    assert a + b == seeds[..n];
    SummaryOk(b);
    assert b[0] in b && b[0].id in pending;
    FlushAccepted(s, a, t, b);
    if Feedable(s, seeds) {
      FeedablePrefix(s, seeds, n);
    }
    forall u | Feedable(s, a + b) && Applied(t, pending, u) ensures FedUpTo(s, seeds, n, u) {
      assert forall x :: x in a ==> x in a + b;
      AppliedTwice(s, a, t, b, u);
    }
  }

  //////////////////////////////////////////////////////////////////////////////
  // Batches
  //////////////////////////////////////////////////////////////////////////////

  function Ids(seeds: seq<CrawlSeed>): set<string> {
    set x | x in seeds :: x.id
  }

  /** Where the batch that is being collected after n seeds began: a batch closes when it has size identifiers. */
  function BatchStart(seeds: seq<CrawlSeed>, n: nat, size: int): (m: nat)
    requires n <= |seeds|
    ensures m <= n
  {
    if n == 0 then 0
    else
      var m := BatchStart(seeds, n - 1, size);
      if |Ids(seeds[m..n])| >= size then n else m
  }

  /** How many entries the batches hold that are closed after n seeds. */
  function Closed(seeds: seq<CrawlSeed>, n: nat, size: int): nat
    requires n <= |seeds|
  {
    if n == 0 then 0
    else
      var ids := Ids(seeds[BatchStart(seeds, n - 1, size)..n]);
      Closed(seeds, n - 1, size) + if |ids| >= size then |ids| else 0
  }

  /** How many entries all batches hold: an identifier counts once in each of its batches. */
  function Delivered(seeds: seq<CrawlSeed>, size: int): nat {
    Closed(seeds, |seeds|, size) + |Ids(seeds[BatchStart(seeds, |seeds|, size)..])|
  }

  lemma NothingClosed(seeds: seq<CrawlSeed>, size: int)
    ensures BatchStart(seeds, 0, size) == 0 && Closed(seeds, 0, size) == 0
  {
  }

  /** What one more seed does to the batches. */
  lemma BatchEnds(seeds: seq<CrawlSeed>, n: nat, size: int)
    requires 0 < n <= |seeds|
    ensures var m := BatchStart(seeds, n - 1, size);
      var ids := Ids(seeds[m..n]);
      && BatchStart(seeds, n, size) == (if |ids| >= size then n else m)
      && Closed(seeds, n, size) == Closed(seeds, n - 1, size) + if |ids| >= size then |ids| else 0
  {
    hide Ids;
  }

  lemma SummaryCount(seeds: seq<CrawlSeed>)
    requires Clean(seeds)
    ensures |Summary(seeds)| == |Ids(seeds)|
  {
    SummaryOk(seeds);
    hide Summary;
    var b := Summary(seeds);
    forall id ensures id in b <==> id in Ids(seeds) {
      if id in b { assert Attained(b, seeds, id); }
    }
    assert b.Keys == Ids(seeds);
  }

  /** A feed that stops with the n-th seed or at the end of its batch: what was fed are the batches before, and the
      seeds so far could not be fed. */
  ghost predicate FeedStops(s: Store, seeds: seq<CrawlSeed>, n: nat, size: int, t: Store)
    requires 0 < n <= |seeds|
  {
    FedUpTo(s, seeds, BatchStart(seeds, n - 1, size), t) && !Feedable(s, seeds[..n])
  }

  /** feed_seeds.  Success is decided by the seeds and the store alone, and so is the final state. */
  method FeedSeeds(redis: Redis, seeds: seq<CrawlSeed>, batchSize: int) returns (r: Result<nat>)
    modifies redis
    ensures r.Ok? <==> batchSize >= 1 && Feedable(old(redis.store), seeds)
    ensures r.Ok? ==> Applied(old(redis.store), Summary(seeds), redis.store) && r.value == Delivered(seeds, batchSize)
    ensures r.Err? && batchSize >= 1 ==>
      exists n :: 0 < n <= |seeds| && FeedStops(old(redis.store), seeds, n, batchSize, redis.store)
    ensures batchSize < 1 ==> redis.store == old(redis.store)
  {
    hide Feedable, Applied, Summary, RedisScore, Include, Clean, AdmitsBatch, Ids, BatchStart, Closed;
    ghost var s := redis.store;
    EmptyFeed(s);
    NothingClosed(seeds, batchSize);
    assert seeds[..0] == [] && FedUpTo(s, seeds, 0, s);
    if batchSize < 1 {
      return Err("batch_size must be at least 1");
    }
    var pending: Batch := map[];
    var enqueued: nat := 0;
    ghost var m := 0;
    EmptyBatch();
    for n := 0 to |seeds|
      invariant 0 <= m <= n
      invariant FedUpTo(s, seeds, m, redis.store)
      invariant Clean(seeds[m..n]) && pending == Summary(seeds[m..n])
      invariant m == BatchStart(seeds, n, batchSize) && enqueued == Closed(seeds, n, batchSize)
    {
      BatchEnds(seeds, n + 1, batchSize);
      assert seeds[m..n + 1] == seeds[m..n] + [seeds[n]];
      var collected := Collect(pending, seeds[n], seeds[m..n]);
      if collected.Err? {
        NotCleanInside(s, seeds, m, n + 1);
        PrefixUnclean(s, seeds, m, n + 1);
        assert FeedStops(s, seeds, n + 1, batchSize, redis.store);
        return Err(collected.code);
      }
      pending := collected.value;
      SummaryCount(seeds[m..n + 1]);
      if |pending| >= batchSize {
        FlushStep(s, seeds, m, n + 1, redis.store, pending);
        var done := EnqueueBatch(redis, pending);
        if done.Err? {
          assert FeedStops(s, seeds, n + 1, batchSize, redis.store);
          return done;
        }
        enqueued := enqueued + done.value;
        m, pending := n + 1, map[];
        assert seeds[m..n + 1] == [];
      }
    }
    assert seeds[..|seeds|] == seeds;
    if m < |seeds| {
      FlushStep(s, seeds, m, |seeds|, redis.store, pending);
      BatchEnds(seeds, |seeds|, batchSize);
      assert !Feedable(s, seeds) ==> FeedStops(s, seeds, |seeds|, batchSize, redis.store);
    } else {
      assert seeds[m..|seeds|] == [];
    }
    ghost var t := redis.store;
    var rest := EnqueueBatch(redis, pending);
    if m == |seeds| {
      EmptyApplied(t, redis.store);
    }
    SummaryCount(seeds[m..]);
    assert seeds[m..|seeds|] == seeds[m..];
    if rest.Err? {
      return rest;
    }
    return Ok(enqueued + rest.value);
  }

  lemma PrefixUnclean(s: Store, seeds: seq<CrawlSeed>, m: nat, n: nat)
    requires m <= n <= |seeds| && !Clean(seeds[m..n])
    ensures !Feedable(s, seeds[..n])
  {
    assert forall x :: x in seeds[m..n] ==> x in seeds[..n];
  }

  lemma EmptyApplied(t: Store, u: Store)
    requires Applied(t, map[], u)
    ensures t == u
  {
    EmptyFeed(t);
    EmptyBatch();
    AppliedUnique(t, map[], t, u);
  }

  lemma EmptyBatch()
    ensures Clean([]) && Summary([]) == map[]
  {
  }

  /** The seeds in any order and in batches of any size end in the same state. */
  lemma FeedOrderIrrelevant(s: Store, seeds: seq<CrawlSeed>, other: seq<CrawlSeed>, t: Store, u: Store)
    requires forall x :: x in seeds <==> x in other
    requires Feedable(s, seeds)
    requires Applied(s, Summary(seeds), t)
    ensures Feedable(s, other)
    ensures Applied(s, Summary(other), u) <==> t == u
  {
    hide Summary, RedisScore, ScoreOf, AppliedAt, Admits;
    HasElement(seeds);
    HasElement(other);
    SummaryOk(seeds);
    SummaryOk(other);
    SummaryUnique(Summary(seeds), Summary(other), seeds, other);
    if Applied(s, Summary(other), u) {
      AppliedUnique(s, Summary(seeds), t, u);
    }
  }

  /** What a feed means for one identifier: the seeds' URL, depth 0, and the least of all scores, where a seed
      counts one less than its priority. */
  lemma FedOutcome(s: Store, seeds: seq<CrawlSeed>, t: Store, x: CrawlSeed)
    requires Mapped(s) && Feedable(s, seeds) && Applied(s, Summary(seeds), t) && x in seeds
    ensures Mapped(t) && NeverWorse(s, t)
    ensures x.id in t.urls && t.urls[x.id] == x.url
    ensures x.id in t.depths && t.depths[x.id] == "0"
    ensures x.id in t.queue && t.queue[x.id].Finite? && t.queue[x.id].r <= (x.priority - 1) as real
    ensures || (x.id in s.queue && t.queue[x.id] == s.queue[x.id])
            || exists y :: y in seeds && y.id == x.id && t.queue[x.id] == Finite((y.priority - 1) as real)
  {
    hide Summary, ScoreOf, ParseDepth;
    ZeroParses();
    SummaryOk(seeds);
    var b := Summary(seeds);
    forall y | y in seeds ensures ScoreOf(y) == (y.priority - 1) as real { PriorityScore(y); }
    assert AppliedAt(s, b, t, x.id) && Attained(b, seeds, x.id) && Admits(s, x.id, x.url);
    forall id | id in s.queue || id in t.queue || id in b
      ensures AppliedAt(s, b, t, id) && (id in b ==> Admits(s, id, b[id].0))
    {
      if id in b { assert Attained(b, seeds, id); }
    }
  }

  lemma PriorityScore(x: CrawlSeed)
    requires 1 <= x.priority <= 3
    ensures ScoreOf(x) == (x.priority - 1) as real
  {
  }

  /** Of two identifiers that were not queued, the one with the more important best seed comes first. */
  lemma ImportantFirst(s: Store, seeds: seq<CrawlSeed>, t: Store, x: CrawlSeed, y: CrawlSeed)
    requires Mapped(s) && Feedable(s, seeds) && Applied(s, Summary(seeds), t) && x in seeds && y in seeds
    requires x.id !in s.queue && y.id !in s.queue
    requires forall z :: z in seeds && z.id == y.id ==> x.priority < z.priority
    ensures x.id in t.queue && y.id in t.queue && t.queue[x.id].Finite? && t.queue[y.id].Finite?
    ensures t.queue[x.id].r < t.queue[y.id].r
  {
    hide Feedable, Applied, Summary, Mapped, NeverWorse;
    FedOutcome(s, seeds, t, x);
    FedOutcome(s, seeds, t, y);
  }
}
