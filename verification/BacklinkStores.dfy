/** The two stores of the backlinks processor. */
module BacklinkStores {
  import opened Outcomes

  type Raw = seq<bv8>
  type Url = string

  /** A raw Redis set member (or key) under its key. */
  type Edge = (Raw, Raw)

  /** parse_backlink_key and parse_backlink_member. */
  datatype Codec = Codec(parseKey: Raw -> Result<Url>, parseMember: Raw -> Result<Url>)

  /** What a member scan can end in. */
  datatype MemberScan = Page(cursor: nat, members: seq<Raw>) | InvalidSet(reason: string) | RedisFailure

  datatype KeyScan = Keys(cursor: nat, keys: seq<Raw>) | KeyLimitExceeded | KeyScanFailure

  datatype MongoOutcome = Acknowledged | DocumentRejected(reason: string) | WriteConflict
                        | NotAcknowledged | Unavailable | OtherMongoError

  /** A call to a store, with the reply. */
  datatype Call =
    | KeysScanned(cursor: nat, maxItems: nat, keyReply: KeyScan)
    | MembersScanned(key: Raw, cursor: nat, maxItems: nat, page: MemberScan)
    | BacklinksAdded(target: Url, sources: seq<Url>, outcome: MongoOutcome)
    | MembersRemoved(key: Raw, members: seq<Raw>, removed: Option<nat>)

  /** Redis and MongoDB, reduced to what the transfer protocol can observe.  Every operation may fail, a failed
      write may or may not have been applied, and other writers may add work between any two steps.  The outcomes
      are chosen by the environment. */
  class Stores {
    const codec: Codec
    var redis: set<Edge>
    var mongo: set<(Url, Url)>
    var stopped: bool
    /** Every edge that was ever in Redis. */
    ghost var seen: set<Edge>
    /** The calls made so far. */
    ghost var calls: seq<Call>

    constructor (codec: Codec, redis: set<Edge>, mongo: set<(Url, Url)>)
      ensures this.codec == codec && this.redis == redis && this.mongo == mongo && Conserved()
    {
      this.codec, this.redis, this.mongo, this.stopped, this.seen := codec, redis, mongo, false, redis;
      this.calls := [];
    }

    /** The backlink that an edge stands for is stored in Mongo. */
    ghost predicate Transferred(e: Edge)
      reads this
    {
      && codec.parseKey(e.0).Ok?
      && codec.parseMember(e.1).Ok?
      && (codec.parseKey(e.0).value, codec.parseMember(e.1).value) in mongo
    }

    /** An edge that was ever in Redis is still there or has reached Mongo. */
    ghost predicate Conserved()
      reads this
    {
      && redis <= seen
      && forall e :: e in seen ==> e in redis || Transferred(e)
    }

    /** How the stores may change between two observations. */
    twostate predicate Evolves()
      reads this
    {
      && old(seen) <= seen
      && old(mongo) <= mongo
      && (old(stopped) ==> stopped)
      && old(calls) <= calls
      && (old(Conserved()) ==> Conserved())
    }

    /** Other writers add edges and backlinks; shutdown may be requested. */
    method Interfere()
      modifies this
      ensures Evolves() && old(redis) <= redis && calls == old(calls)
    {
      var edges: set<Edge> := *;
      var links: set<(Url, Url)> := *;
      var stop: bool := *;
      redis, seen, mongo, stopped := redis + edges, seen + edges, mongo + links, stopped || stop;
    }

    method IsStopped() returns (stop: bool)
      modifies this
      ensures Evolves() && stop == stopped && calls == old(calls)
    {
      Interfere();
      stop := stopped;
    }

    method ScanKeys(cursor: nat, maxItems: nat) returns (r: KeyScan)
      modifies this
      ensures Evolves() && calls == old(calls) + [KeysScanned(cursor, maxItems, r)]
      ensures r.Keys? ==> |r.keys| <= maxItems
    {
      Interfere();
      var next: nat, keys: seq<Raw>, fails: bool := *, *, *;
      if fails {
        r := KeyScanFailure;
      } else if |keys| > maxItems {
        r := KeyLimitExceeded;
      } else {
        r := Keys(next, keys);
      }
      calls := calls + [KeysScanned(cursor, maxItems, r)];
    }

    method ScanMembers(key: Raw, cursor: nat, maxItems: nat) returns (r: MemberScan)
      requires Conserved()
      modifies this
      ensures Evolves() && calls == old(calls) + [MembersScanned(key, cursor, maxItems, r)]
      ensures r.Page? ==> |r.members| <= maxItems && forall m :: m in r.members ==> (key, m) in seen
    {
      Interfere();
      var outcome: nat, next: nat, members: seq<Raw>, reason: string := *, *, *, *;
      if outcome == 0 {
        r := InvalidSet(reason);
      } else if outcome == 1 || |members| > maxItems || exists m :: m in members && (key, m) !in redis {
        r := RedisFailure;
      } else {
        r := Page(next, members);
      }
      calls := calls + [MembersScanned(key, cursor, maxItems, r)];
    }

    /** An acknowledged add has stored every link; any other outcome may have stored some. */
    method AddBacklinks(target: Url, sources: seq<Url>) returns (r: MongoOutcome)
      modifies this
      ensures Evolves() && calls == old(calls) + [BacklinksAdded(target, sources, r)]
      ensures r.Acknowledged? ==> forall u :: u in sources ==> (target, u) in mongo
    {
      Interfere();
      r := *;
      var applied: set<Url> := *;
      if r.Acknowledged? {
        applied := set u | u in sources;
      }
      mongo := mongo + set u | u in applied :: (target, u);
      calls := calls + [BacklinksAdded(target, sources, r)];
    }

    /** Exact removal of raw members.  Its precondition is the acknowledgment order: every member
        has already reached Mongo under its target. */
    method SremMembers(key: Raw, members: seq<Raw>) returns (removed: Option<nat>)
      requires members != []
      requires forall m :: m in members ==> Transferred((key, m))
      modifies this
      ensures Evolves() && calls == old(calls) + [MembersRemoved(key, members, removed)]
      ensures forall e :: e in old(redis) ==> e in redis || (e.0 == key && e.1 in members)
      ensures removed.Some? ==> removed.value <= |members| && forall m :: m in members ==> (key, m) !in redis
    {
      Interfere();
      var applied: bool, replied: bool := *, *;
      removed := None;
      if applied {
        var gone := set m | m in members :: (key, m);
        var present := set m | m in members && (key, m) in redis;
        redis := redis - gone;
        if replied {
          PresentBound(members, present);
          removed := Some(|present|);
        }
      }
      calls := calls + [MembersRemoved(key, members, removed)];
    }
  }

  lemma {:induction false} PresentBound(members: seq<Raw>, present: set<Raw>)
    requires forall m :: m in present ==> m in members
    ensures |present| <= |members|
  {
    if members != [] {
      var rest := present - {members[0]};
      assert forall m :: m in rest ==> m in members[1..];
      PresentBound(members[1..], rest);
      assert |present| <= |rest| + 1;
    } else {
      assert present == {};
    }
  }
}
