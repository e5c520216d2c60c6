/** The bounded scheduler that moves backlink edges from Redis to Mongo. */
module BacklinkProcessor {
  import opened Arith
  import opened Outcomes
  import opened BacklinkStores
  import opened BacklinkBuffers
  import opened BacklinkAdmission
  import opened BacklinkSteps

  //////////////////////////////////////////////////////////////////////////////
  // The record of member scans
  //////////////////////////////////////////////////////////////////////////////

  datatype Event = BecameWaiter(key: Raw) | Scanned(key: Raw)

  function WaiterAfter(log: seq<Event>): Option<Raw> {
    if log != [] && log[|log| - 1].BecameWaiter? then Some(log[|log| - 1].key) else None
  }

  /** A key becomes waiter only when there is none, and a member scan serves the waiter if there is one. */
  ghost predicate LogOk(log: seq<Event>) {
    forall i :: 0 <= i < |log| ==>
      var waiter := WaiterAfter(log[..i]);
      waiter == None || log[i] == Scanned(waiter.value)
  }

  lemma LogExtend(log: seq<Event>, e: Event)
    requires LogOk(log)
    requires WaiterAfter(log) == None || e == Scanned(WaiterAfter(log).value)
    ensures LogOk(log + [e])
    ensures WaiterAfter(log + [e]) == if e.BecameWaiter? then Some(e.key) else None
  {
    var log' := log + [e];
    forall i | 0 <= i < |log'|
      ensures var w := WaiterAfter(log'[..i]); w == None || log'[i] == Scanned(w.value)
    {
      assert log'[..i] == log[..i];
      if i == |log| { assert log[..i] == log; }
    }
  }

  /** From the moment a key becomes waiter until it is scanned, no other target is scanned. */
  lemma FirstWaiterHonoured(log: seq<Event>, i: nat, j: nat)
    requires LogOk(log) && i < j < |log|
    requires log[i].BecameWaiter? && log[j].Scanned? && log[j].key != log[i].key
    ensures exists m :: i < m < j && log[m] == Scanned(log[i].key)
  {
    assert WaiterAfter(log[..i + 1]) == Some(log[i].key);
    assert log[i + 1] == Scanned(log[i].key);
  }

  //////////////////////////////////////////////////////////////////////////////
  // The processor
  //////////////////////////////////////////////////////////////////////////////

  /** Every target is queued (or is the one being visited), its key parses, and everything buffered
      came from Redis; a queued target still has something to do; the waiter is a queued target with
      an empty buffer. */
  ghost predicate TargetsOk(codec: Codec, targets: Targets, keys: set<Raw>, seen: set<Edge>, visited: set<Raw>,
                            waiter: Option<Raw>)
  {
    && targets.Keys <= keys
    && (forall k :: k in targets ==> codec.parseKey(k).Ok?)
    && (forall k :: k in targets && k !in visited ==> targets[k].buffer != [] || !targets[k].complete)
    && (forall k, m :: k in targets && m in targets[k].buffer ==> (k, m) in seen)
    && (waiter.Some? ==> waiter.value in targets && targets[waiter.value].buffer == [])
  }

  lemma TargetsOkMono(codec: Codec, targets: Targets, keys: set<Raw>, keys': set<Raw>, seen: set<Edge>,
                      seen': set<Edge>, visited: set<Raw>, waiter: Option<Raw>)
    requires TargetsOk(codec, targets, keys, seen, visited, waiter) && keys <= keys' && seen <= seen'
    ensures TargetsOk(codec, targets, keys', seen', visited, waiter)
    ensures TargetsOk(codec, targets, keys', seen', visited, None)
  {
  }

  /** The visited target may take any buffer that came from Redis, as long as it is not the waiter. */
  lemma TargetsOkSet(codec: Codec, targets: Targets, keys: set<Raw>, seen: set<Edge>,
                     key: Raw, t: Target, waiter: Option<Raw>)
    requires TargetsOk(codec, targets, keys, seen, {key}, waiter)
    requires key in keys && codec.parseKey(key).Ok? && waiter != Some(key)
    requires forall m :: m in t.buffer ==> (key, m) in seen
    ensures TargetsOk(codec, targets[key := t], keys, seen, {key}, waiter)
  {
  }

  /** A visited target with something left to do is an ordinary queued target, and may become waiter
      when its buffer is empty. */
  lemma TargetsOkClose(codec: Codec, targets: Targets, keys: set<Raw>, seen: set<Edge>, key: Raw, waiter: Option<Raw>)
    requires TargetsOk(codec, targets, keys, seen, {key}, waiter) && key in targets
    requires targets[key].buffer != [] || !targets[key].complete
    ensures TargetsOk(codec, targets, keys, seen, {}, waiter)
    ensures targets[key].buffer == [] ==> TargetsOk(codec, targets, keys, seen, {}, Some(key))
  {
  }

  lemma TargetsOkDrop(codec: Codec, targets: Targets, queued: set<Raw>, seen: set<Edge>, key: Raw, waiter: Option<Raw>)
    requires TargetsOk(codec, targets, queued + {key}, seen, {key}, waiter) && waiter != Some(key)
    ensures TargetsOk(codec, targets - {key}, queued, seen, {}, waiter)
  {
  }

  lemma TargetsOkEntry(codec: Codec, targets: Targets, keys: set<Raw>, seen: set<Edge>, visited: set<Raw>,
                       waiter: Option<Raw>, key: Raw)
    requires TargetsOk(codec, targets, keys, seen, visited, waiter)
    requires key in targets
    ensures codec.parseKey(key).Ok?
    ensures forall m :: m in targets[key].buffer ==> (key, m) in seen
    ensures waiter == Some(key) ==> targets[key].buffer == []
  {
  }

  /** An upper bound on the visits that can pass, without a retry, before the waiter is scanned. */
  ghost function WaitBound(limits: Limits, pending: seq<Raw>, targets: Targets, waiter: Raw): nat {
    var goal := if Buffered(targets) == {} then {waiter} else Buffered(targets);
    Times(Total(targets, BufferCount), limits.maxPendingTargetKeys + 1) + Before(pending, goal)
  }

  datatype ScanStatus = Ready | Blocked | Dropped(reason: string) | ScanRaised

  class Processor {
    const stores: Stores
    const limits: Limits
    var keyCursor: nat
    var pendingKeys: seq<Raw>
    var queuedKeys: set<Raw>
    var targets: Targets
    var memberScanWaiter: Option<Raw>
    ghost var log: seq<Event>
    /** The steps taken so far, and the calls that the stores had seen before. */
    ghost var history: seq<Move>
    ghost const base: seq<Call>

    constructor (stores: Stores, limits: Limits)
      requires limits.Valid() && stores.Conserved()
      ensures Running() && this.stores == stores && this.limits == limits && history == []
    {
      this.stores, this.limits := stores, limits;
      keyCursor, pendingKeys, queuedKeys, targets, memberScanWaiter := 0, [], {}, map[], None;
      log, history, base := [], [], stores.calls;
      RunStarts(stores.codec, limits, stores.calls, stores.stopped);
    }

    ghost predicate Common()
      reads this`pendingKeys, this`queuedKeys, this`targets, this`memberScanWaiter, this`log, stores
    {
      && limits.Valid()
      && QueueOk(pendingKeys, queuedKeys)
      && Total(targets, BufferBytes) <= limits.maxPendingMemberBytes
      && LogOk(log) && memberScanWaiter == WaiterAfter(log)
      && stores.Conserved()
    }

    /** The invariant at every loop head. */
    ghost predicate Valid()
      reads this`pendingKeys, this`queuedKeys, this`targets, this`memberScanWaiter, this`log, stores
    {
      && Common()
      && |pendingKeys| <= limits.maxPendingTargetKeys
      && TargetsOk(stores.codec, targets, queuedKeys, stores.seen, {}, memberScanWaiter)
    }

    /** The invariant between cycles: the state and the calls made are those of the steps taken. */
    ghost predicate Running()
      reads this, stores
    {
      Valid() && RunFits(stores.codec, limits, base, history, Snap(), stores.calls, stores.stopped)
    }

    ghost function Snap(): Snapshot
      reads this`keyCursor, this`pendingKeys, this`targets, this`memberScanWaiter
    {
      Snapshot(keyCursor, pendingKeys, targets, memberScanWaiter)
    }

    lemma SnapIs()
      ensures Snap().pending == pendingKeys
    {
    }

    /** The invariant while key is out of the queue. */
    ghost predicate Visiting(key: Raw)
      reads this`pendingKeys, this`queuedKeys, this`targets, this`memberScanWaiter, this`log, stores
    {
      && Common()
      && |pendingKeys| < limits.maxPendingTargetKeys
      && key !in queuedKeys && key in targets
      && TargetsOk(stores.codec, targets, queuedKeys + {key}, stores.seen, {key}, memberScanWaiter)
    }

    ghost function Bound(): nat
      requires memberScanWaiter.Some?
      reads this`pendingKeys, this`targets, this`memberScanWaiter
    {
      WaitBound(limits, pendingKeys, targets, memberScanWaiter.value)
    }

    /** Whenever the byte budget cannot hold another page, some queued target has buffered members,
        so a blocked waiter always waits for work that can be done. */
    lemma BlockedMeansBuffered()
      requires Valid()
      requires Total(targets, BufferBytes) + limits.ScanByteLimit() > limits.maxPendingMemberBytes
      ensures exists k :: k in pendingKeys && k in targets && targets[k].buffer != []
    {
      var k := TotalPositive(targets, BufferBytes);
    }

    method QueueKey(key: Raw)
      requires QueueOk(pendingKeys, queuedKeys)
      modifies this`pendingKeys, this`queuedKeys
      ensures QueueOk(pendingKeys, queuedKeys)
      ensures queuedKeys == old(queuedKeys) + {key}
      ensures pendingKeys == if key in old(queuedKeys) then old(pendingKeys) else old(pendingKeys) + [key]
    {
      if key !in queuedKeys {
        QueuePush(pendingKeys, queuedKeys, key);
        pendingKeys := pendingKeys + [key];
        queuedKeys := queuedKeys + {key};
      }
    }

    /** One Mongo add, then the exact Redis acknowledgment. */
    method ProcessBatch(key: Raw, target: Url, members: seq<Raw>) returns (r: BatchStatus, ghost made: seq<Call>)
      requires stores.Conserved() && members != []
      requires stores.codec.parseKey(key) == Ok(target)
      requires forall m :: m in members ==> stores.codec.parseMember(m).Ok?
      modifies stores
      ensures stores.Evolves() && stores.calls == old(stores.calls) + made
      ensures BatchCalls(stores.codec, key, target, members, made, r)
      ensures r.Acked? ==> r.removed <= |members|
      ensures r.Acked? ==> forall m :: m in members ==> stores.Transferred((key, m)) && (key, m) !in stores.redis
    {
      var urls := Sources(stores.codec, members);
      var outcome := stores.AddBacklinks(target, urls);
      made := [BacklinksAdded(target, urls, outcome)];
      match outcome {
        case DocumentRejected(reason) => return Rejected(reason), made;
        case WriteConflict => return RetryLater("mongo_write_conflict"), made;
        case NotAcknowledged => return RetryLater("mongo_write_not_acknowledged"), made;
        case Unavailable => return RetryLater("mongo_unavailable"), made;
        case OtherMongoError => return Rejected("mongo_write_rejected"), made;
        case Acknowledged =>
      }
      forall m | m in members ensures stores.Transferred((key, m)) {
        var i :| 0 <= i < |members| && members[i] == m;
        assert urls[i] in urls;
      }
      var removed := stores.SremMembers(key, members);
      made := made + [MembersRemoved(key, members, removed)];
      match removed {
        case None => r := RetryLater("redis_ack_unavailable");
        case Some(n) => r := Acked(n);
      }
    }

    /** The head of a visit to a target with nothing buffered: reserve a full page or step back. */
    method ScanPhase(key: Raw, pendingBytes: nat) returns (status: ScanStatus, ghost page: MemberScan)
      requires Visiting(key) && targets[key].buffer == [] && !targets[key].complete
      requires pendingBytes == Total(targets, BufferBytes)
      modifies this`log, this`memberScanWaiter, this`targets, this`pendingKeys, this`queuedKeys, stores
      ensures stores.Evolves()
      ensures status.Blocked? <==> MustWait(limits, old(Snap()), key)
      ensures stores.calls == old(stores.calls) +
                if status.Blocked? then []
                else [MembersScanned(key, old(targets[key]).cursor, limits.maxScanResponseItems, page)]
      ensures status.Ready? ==>
                && Visiting(key) && memberScanWaiter == None && log == old(log) + [Scanned(key)]
                && pendingKeys == old(pendingKeys) && queuedKeys == old(queuedKeys)
                && page.Page? && SumLen(page.members) <= limits.ScanByteLimit()
                && targets == old(targets)[key := Target(page.cursor, page.cursor == 0, page.members)]
      ensures status.Blocked? ==>
                && Valid()
                && targets == old(targets) && pendingKeys == old(pendingKeys) + [key]
                && memberScanWaiter == (if old(memberScanWaiter) == None then Some(key) else old(memberScanWaiter))
                && log == (if old(memberScanWaiter) == None then old(log) + [BecameWaiter(key)] else old(log))
                && (old(memberScanWaiter) in {None, Some(key)} ==>
                      pendingBytes + limits.ScanByteLimit() > limits.maxPendingMemberBytes)
      ensures status.Dropped? ==>
                && Valid() && memberScanWaiter == None && log == old(log) + [Scanned(key)]
                && page == InvalidSet(status.reason)
                && targets == old(targets) - {key} && pendingKeys == old(pendingKeys)
      ensures status.ScanRaised? ==>
                && Valid() && memberScanWaiter == None && log == old(log) + [Scanned(key)]
                && (page.RedisFailure? || (page.Page? && SumLen(page.members) > limits.ScanByteLimit()))
                && targets == old(targets) && pendingKeys == old(pendingKeys) + [key]
    {
      hide Stores.Conserved, Limits.Valid, Limits.ScanByteLimit, TargetsOk, QueueOk, LogOk, Total, SumLen, WaiterAfter;
      TargetsOkEntry(stores.codec, targets, queuedKeys + {key}, stores.seen, {key}, memberScanWaiter, key);
      if memberScanWaiter !in {None, Some(key)}
         || pendingBytes + limits.ScanByteLimit() > limits.maxPendingMemberBytes
      {
        StepBack(key);
        return Blocked, RedisFailure;
      }
      LogExtend(log, Scanned(key));
      TargetsOkMono(stores.codec, targets, queuedKeys + {key}, queuedKeys + {key}, stores.seen, stores.seen,
                    {key}, memberScanWaiter);
      log := log + [Scanned(key)];
      memberScanWaiter := None;
      status, page := FetchPage(key);
    }

    /** Queue the target again, as the waiter if there is none. */
    method StepBack(key: Raw)
      requires Visiting(key) && targets[key].buffer == [] && !targets[key].complete
      modifies this`log, this`memberScanWaiter, this`pendingKeys, this`queuedKeys
      ensures Valid() && pendingKeys == old(pendingKeys) + [key]
      ensures memberScanWaiter == if old(memberScanWaiter) == None then Some(key) else old(memberScanWaiter)
      ensures log == if old(memberScanWaiter) == None then old(log) + [BecameWaiter(key)] else old(log)
    {
      hide Limits.Valid, Stores.Conserved, TargetsOk, QueueOk, LogOk, Total, WaiterAfter;
      TargetsOkClose(stores.codec, targets, queuedKeys + {key}, stores.seen, key, memberScanWaiter);
      if memberScanWaiter == None {
        LogExtend(log, BecameWaiter(key));
        log := log + [BecameWaiter(key)];
        memberScanWaiter := Some(key);
      }
      QueueKey(key);
    }

    /** Scan one page; an overlarge page raises and leaves the cursor where it was. */
    method FetchPage(key: Raw) returns (status: ScanStatus, ghost page: MemberScan)
      requires Visiting(key) && targets[key].buffer == [] && memberScanWaiter == None
      requires !targets[key].complete
      requires Total(targets, BufferBytes) + limits.ScanByteLimit() <= limits.maxPendingMemberBytes
      modifies this`targets, this`pendingKeys, this`queuedKeys, stores
      ensures stores.Evolves()
      ensures stores.calls ==
                old(stores.calls) + [MembersScanned(key, old(targets[key]).cursor, limits.maxScanResponseItems, page)]
      ensures match status
              case Ready =>
                Visiting(key) && pendingKeys == old(pendingKeys) && queuedKeys == old(queuedKeys)
                && page.Page? && SumLen(page.members) <= limits.ScanByteLimit()
                && targets == old(targets)[key := Target(page.cursor, page.cursor == 0, page.members)]
              case Blocked => false
              case Dropped(reason) =>
                && page == InvalidSet(reason) && Valid()
                && targets == old(targets) - {key} && pendingKeys == old(pendingKeys)
              case ScanRaised =>
                && (page.RedisFailure? || (page.Page? && SumLen(page.members) > limits.ScanByteLimit()))
                && Valid() && targets == old(targets) && pendingKeys == old(pendingKeys) + [key]
    {
      hide Limits.Valid, Stores.Conserved, TargetsOk, QueueOk, LogOk, Total, WaiterAfter;
      ghost var codec, keys := stores.codec, queuedKeys + {key};
      var scan := stores.ScanMembers(key, targets[key].cursor, limits.maxScanResponseItems);
      TotalRemove(targets, BufferBytes, key);
      TargetsOkMono(codec, targets, keys, keys, old(stores.seen), stores.seen, {key}, None);
      if scan.InvalidSet? {
        TargetsOkDrop(codec, targets, queuedKeys, stores.seen, key, None);
        targets := targets - {key};
        return Dropped(scan.reason), scan;
      }
      if scan.RedisFailure? || SumLen(scan.members) > limits.ScanByteLimit() {
        TargetsOkClose(codec, targets, keys, stores.seen, key, None);
        QueueKey(key);
        return ScanRaised, scan;
      }
      var t := Target(scan.cursor, scan.cursor == 0, scan.members);
      TargetsOkEntry(codec, targets, keys, stores.seen, {key}, None, key);
      TotalSet(targets, BufferBytes, key, t);
      TargetsOkSet(codec, targets, keys, stores.seen, key, t, None);
      targets := targets[key := t];
      return Ready, scan;
    }

    /** Admit one batch from the target's buffer and try to transfer it. */
    method BatchPhase(key: Raw, target: Url)
      returns (restored: bool, retries: multiset<string>, rejections: multiset<string>,
               ghost admitted: seq<Raw>, ghost left: seq<Raw>, ghost refusals: multiset<string>,
               ghost made: seq<Call>)
      requires Visiting(key) && stores.codec.parseKey(key) == Ok(target)
      requires memberScanWaiter != Some(key)
      modifies this`targets, stores
      ensures Visiting(key) && stores.Evolves() && stores.calls == old(stores.calls) + made
      ensures Transfers(stores.codec, limits, key, target, old(targets[key]), made, stores.stopped,
                        Visited(restored, retries, rejections), admitted, left, refusals)
      ensures targets[key] == old(targets[key]).(buffer := if restored then admitted + left else left)
      ensures !restored && refusals == multiset{} ==>
                forall m :: m in admitted ==> stores.Transferred((key, m)) && (key, m) !in stores.redis
      ensures Removed(made) ==>
                forall m :: m in RemovedMembers(made) ==> stores.Transferred((key, m)) && (key, m) !in stores.redis
      ensures targets == old(targets)[key := targets[key]]
      ensures |targets[key].buffer| <= |old(targets[key]).buffer|
      ensures !restored && old(targets[key]).buffer != [] ==> |targets[key].buffer| < |old(targets[key]).buffer|
    {
      hide Limits.Valid, Stores.Conserved, Stores.Transferred, TargetsOk, QueueOk, LogOk, Total, IsAdmission,
        WaiterAfter, SendCalls, Unsendable, Transfers;
      var buffer := targets[key].buffer;
      ghost var codec, keys := stores.codec, queuedKeys + {key};
      TargetsOkEntry(codec, targets, keys, stores.seen, {key}, memberScanWaiter, key);
      var members, rest;
      members, rest, rejections := AdmitMembers(stores.codec, limits, buffer);
      AdmissionShrinks(stores.codec, limits, buffer, members, rest);
      restored, retries := false, multiset{};
      admitted, left, refusals, made := members, rest, multiset{}, [];
      if members != [] {
        var more;
        restored, retries, more, made := SendBatch(key, target, members);
        rejections, refusals := rejections + more, more;
      }
      TransfersMade(codec, limits, key, target, targets[key], made, stores.stopped,
                    Visited(restored, retries, rejections), members, rest, refusals);
      var keep := if restored then members + rest else rest;
      KeepBuffer(targets, key, keep);
      TargetsOkMono(codec, targets, keys, keys, old(stores.seen), stores.seen, {key}, memberScanWaiter);
      TargetsOkSet(codec, targets, keys, stores.seen, key, targets[key].(buffer := keep), memberScanWaiter);
      targets := targets[key := targets[key].(buffer := keep)];
    }

    /** A batch is given back when shutdown was requested or the batch must be retried. */
    method SendBatch(key: Raw, target: Url, members: seq<Raw>)
      returns (restored: bool, retries: multiset<string>, rejections: multiset<string>, ghost made: seq<Call>)
      requires stores.Conserved() && members != []
      requires stores.codec.parseKey(key) == Ok(target)
      requires forall m :: m in members ==> stores.codec.parseMember(m).Ok?
      modifies stores
      ensures stores.Evolves() && stores.calls == old(stores.calls) + made
      ensures SendCalls(stores.codec, key, target, members, made, stores.stopped, restored, retries, rejections)
      ensures !restored && rejections == multiset{} ==>
                forall m :: m in members ==> stores.Transferred((key, m)) && (key, m) !in stores.redis
      ensures Removed(made) ==>
                forall m :: m in RemovedMembers(made) ==> stores.Transferred((key, m)) && (key, m) !in stores.redis
    {
      hide Stores.Conserved, Stores.Transferred, BatchCalls;
      restored, retries, rejections, made := false, multiset{}, multiset{}, [];
      var stop := stores.IsStopped();
      if stop {
        restored := true;
      } else {
        var result;
        result, made := ProcessBatch(key, target, members);
        CallsMade(stores.codec, key, target, members, made, result, stores.stopped);
        match result {
          case Acked(_) =>
          case RetryLater(reason) => restored, retries := true, multiset{reason};
          case Rejected(reason) => rejections := multiset{reason};
        }
      }
    }

    /** A visit to a target with nothing buffered: either a page arrives, or the visit is over. */
    method VisitEmpty(key: Raw, pendingBytes: nat, ghost before: Targets, ghost target: Url)
      returns (ready: bool, v: Visit, bytes: nat, ghost page: MemberScan, ghost made: seq<Call>)
      requires Visiting(key) && targets[key].buffer == [] && !targets[key].complete
      requires pendingBytes == Total(targets, BufferBytes)
      requires TargetsOk(stores.codec, before, queuedKeys + {key}, stores.seen, {}, memberScanWaiter)
      requires Buffered(before) == Buffered(targets) && Total(before, BufferCount) == Total(targets, BufferCount)
      requires Total(before, BufferBytes) == Total(targets, BufferBytes) && key !in Buffered(before)
      modifies this`log, this`memberScanWaiter, this`targets, this`pendingKeys, this`queuedKeys, stores
      ensures stores.Evolves() && old(log) <= log && stores.calls == old(stores.calls) + made
      ensures if MustWait(limits, old(Snap()), key) then
                && !ready && made == [] && v == Visited(false, multiset{"pending_member_byte_limit"}, multiset{})
                && Snap() == Requeued(old(Snap()).(waiter := if old(memberScanWaiter) == None then Some(key)
                                                              else old(memberScanWaiter)), key, old(targets[key]))
              else made == [MembersScanned(key, old(targets[key]).cursor, limits.maxScanResponseItems, page)]
      ensures ready ==>
                && Visiting(key) && log == old(log) + [Scanned(key)] && queuedKeys == old(queuedKeys)
                && page.Page? && SumLen(page.members) <= limits.ScanByteLimit()
                && Snap() == old(Snap()).(waiter := None, targets :=
                     old(targets)[key := Target(page.cursor, page.cursor == 0, page.members)])
      ensures !ready ==>
                && Valid() && (v.Visited? ==> bytes == Total(targets, BufferBytes))
                && (pendingKeys == old(pendingKeys) || pendingKeys == old(pendingKeys) + [key])
                && (v.VisitRaised? ==> |old(log)| < |log|)
      ensures !ready && !MustWait(limits, old(Snap()), key) ==>
                ScanStep(stores.codec, limits, old(Snap()).(waiter := None), key, target, old(targets[key]), page, [],
                         stores.stopped, v, Snap())
      ensures !ready && old(memberScanWaiter).Some? && log == old(log) && v.Visited?
              ==> memberScanWaiter == old(memberScanWaiter)
                  && Bound() < WaitBound(limits, [key] + old(pendingKeys), before, memberScanWaiter.value)
    {
      hide Limits.Valid, Limits.ScanByteLimit, Stores.Conserved, TargetsOk, QueueOk, LogOk, Total, WaitBound,
        Buffered, WaiterAfter;
      ghost var codec, queue := stores.codec, [key] + pendingKeys;
      bytes := pendingBytes;
      TotalRemove(targets, BufferBytes, key);
      PutBack(pendingKeys, queuedKeys, key);
      var status;
      status, page := ScanPhase(key, pendingBytes);
      made := if status.Blocked? then []
              else [MembersScanned(key, old(targets[key]).cursor, limits.maxScanResponseItems, page)];
      match status {
        case Blocked =>
          if old(memberScanWaiter).Some? && log == old(log) {
            BudgetHoldsPage(limits);
            ProgressRotate(codec, limits, queue, old(queuedKeys) + {key}, before, targets, old(stores.seen),
                           memberScanWaiter.value);
          }
          ready, v := false, Visited(false, multiset{"pending_member_byte_limit"}, multiset{});
        case Dropped(reason) =>
          ready, v := false, Visited(false, multiset{}, multiset{reason});
        case ScanRaised =>
          ready, v := false, VisitRaised;
        case Ready =>
          ready, v := true, VisitRaised;
      }
    }

    /** One iteration of the cycle's loop over target keys. */
    method VisitTarget(pendingBytes: nat) returns (v: Visit, bytes: nat, ghost made: seq<Call>)
      requires Valid() && pendingKeys != [] && pendingBytes == Total(targets, BufferBytes)
      modifies this`log, this`memberScanWaiter, this`targets, this`pendingKeys, this`queuedKeys, stores
      ensures Valid() && stores.Evolves() && stores.calls == old(stores.calls) + made
      ensures VisitStep(stores.codec, limits, old(Snap()), made, stores.stopped, v, Snap())
      ensures v.Visited? ==> bytes == Total(targets, BufferBytes)
      ensures old(log) <= log && (v.VisitRaised? ==> |old(log)| < |log|)
      ensures pendingKeys == old(pendingKeys)[1..] || pendingKeys == old(pendingKeys)[1..] + [old(pendingKeys)[0]]
      ensures old(memberScanWaiter).Some? && log == old(log) && v.Visited? && !v.restored
              ==> memberScanWaiter == old(memberScanWaiter) && Bound() < old(Bound())
    {
      hide Limits.Valid, Stores.Conserved, TargetsOk, QueueOk, LogOk, Total, WaitBound, Buffered, WaiterAfter, SumLen,
        TransferStep, ScanStep, VisitStep, MustWait, Requeued, Limits.ScanByteLimit;
      bytes, made := pendingBytes, [];
      var key := pendingKeys[0];
      ghost var codec, all, before := stores.codec, queuedKeys, Snap();
      QueuePop(pendingKeys, queuedKeys);
      pendingKeys, queuedKeys := pendingKeys[1..], queuedKeys - {key};
      assert [key] + pendingKeys == old(pendingKeys) && queuedKeys + {key} == all;
      var parsed := stores.codec.parseKey(key);
      if parsed.Err? {
        UnparsedKey(codec, limits, old(pendingKeys), all, targets, stores.seen, memberScanWaiter);
        VisitUnparsed(codec, limits, before, stores.stopped);
        return Visited(false, multiset{}, multiset{parsed.code}), bytes, [];
      }
      OpenTarget(codec, targets, all, stores.seen, memberScanWaiter, key);
      if key !in targets {
        targets := targets[key := NEW_TARGET];
      }
      SnapIs();
      v, bytes, made := VisitOpen(key, parsed.value, pendingBytes, before);
    }

    /** The rest of the iteration, for a target that has an entry. */
    method VisitOpen(key: Raw, target: Url, pendingBytes: nat, ghost before: Snapshot)
      returns (v: Visit, bytes: nat, ghost made: seq<Call>)
      requires Visiting(key) && pendingBytes == Total(targets, BufferBytes)
      requires Opened(stores.codec, before, Snap(), target, targets[key]) && before.pending[0] == key
      requires TargetsOk(stores.codec, before.targets, queuedKeys + {key}, stores.seen, {}, memberScanWaiter)
      requires Buffered(before.targets) == Buffered(targets)
      requires Total(before.targets, BufferCount) == Total(targets, BufferCount)
      requires Total(before.targets, BufferBytes) == Total(targets, BufferBytes)
      requires targets[key].buffer == [] ==> key !in Buffered(targets) && !targets[key].complete
      requires memberScanWaiter == Some(key) ==> targets[key].buffer == []
      modifies this`log, this`memberScanWaiter, this`targets, this`pendingKeys, this`queuedKeys, stores
      ensures Valid() && stores.Evolves() && stores.calls == old(stores.calls) + made
      ensures VisitStep(stores.codec, limits, before, made, stores.stopped, v, Snap())
      ensures v.Visited? ==> bytes == Total(targets, BufferBytes)
      ensures old(log) <= log && (v.VisitRaised? ==> |old(log)| < |log|)
      ensures pendingKeys == old(pendingKeys) || pendingKeys == old(pendingKeys) + [key]
      ensures before.waiter.Some? && log == old(log) && v.Visited? && !v.restored ==>
                && memberScanWaiter == before.waiter
                && Bound() < WaitBound(limits, before.pending, before.targets, memberScanWaiter.value)
    {
      hide Limits.Valid, Stores.Conserved, TargetsOk, QueueOk, LogOk, Total, WaitBound, Buffered, WaiterAfter, SumLen,
        TransferStep, ScanStep, VisitStep, MustWait, Requeued, Limits.ScanByteLimit;
      ghost var codec, begun, t := stores.codec, Snap(), targets[key];
      var previousBytes := SumLen(targets[key].buffer);
      bytes, made := pendingBytes, [];
      assert [key] + pendingKeys == before.pending;
      SameWait(limits, before, begun, key);
      if targets[key].buffer == [] && !targets[key].complete {
        var ready;
        ghost var page;
        ready, v, bytes, page, made := VisitEmpty(key, pendingBytes, before.targets, target);
        if !ready {
          VisitOver(codec, limits, before, begun, target, t, page, made, stores.stopped, v, Snap());
          return;
        }
      }
      SameBytes(old(targets), targets, key);
      ghost var here, u, scanned := Snap(), targets[key], made;
      ghost var sent;
      v, bytes, sent := TransferPhase(key, target, pendingBytes, previousBytes);
      made := made + sent;
      VisitSends(codec, limits, before, begun, here, target, t, u, scanned, sent, stores.stopped, v, Snap());
      if before.waiter.Some? && log == old(log) && !v.restored {
        ProgressShrink(limits, before.pending, before.targets, pendingKeys, targets, memberScanWaiter.value);
      }
    }

    /** The tail of a visit: one batch, the running byte count, and the way back to the queue. */
    method TransferPhase(key: Raw, target: Url, pendingBytes: nat, previousBytes: nat)
      returns (v: Visit, bytes: nat, ghost made: seq<Call>)
      requires Visiting(key) && stores.codec.parseKey(key) == Ok(target)
      requires memberScanWaiter != Some(key)
      requires pendingBytes + SumLen(targets[key].buffer) == Total(targets, BufferBytes) + previousBytes
      modifies this`targets, this`pendingKeys, this`queuedKeys, stores
      ensures Valid() && stores.Evolves() && stores.calls == old(stores.calls) + made
      ensures v.Visited? && bytes == Total(targets, BufferBytes)
      ensures TransferStep(stores.codec, limits, old(Snap()), key, target, old(targets[key]), made, stores.stopped, v,
                           Snap())
      ensures Removed(made) ==>
                forall m :: m in RemovedMembers(made) ==> stores.Transferred((key, m)) && (key, m) !in stores.redis
      ensures if key in targets then
                pendingKeys == old(pendingKeys) + [key] && (targets[key].buffer != [] || !targets[key].complete)
              else pendingKeys == old(pendingKeys) && old(targets[key]).complete
      ensures !v.restored && old(targets[key]).buffer != [] ==>
                Total(targets, BufferCount) < Total(old(targets), BufferCount)
    {
      hide Limits.Valid, Stores.Conserved, TargetsOk, QueueOk, LogOk, Total, SumLen, WaiterAfter, TransferStep,
        Transfers, Removed;
      ghost var codec, before, start, t := stores.codec, targets, Snap(), targets[key];
      TotalRemove(before, BufferBytes, key);
      TotalRemove(before, BufferCount, key);
      ghost var admitted, left, refusals;
      var restored, retries, rejections;
      restored, retries, rejections, admitted, left, refusals, made := BatchPhase(key, target);
      assert targets - {key} == before - {key};
      TotalRemove(targets, BufferBytes, key);
      TotalRemove(targets, BufferCount, key);
      bytes := pendingBytes + SumLen(targets[key].buffer) - previousBytes;
      if targets[key].buffer != [] || !targets[key].complete {
        TargetsOkClose(codec, targets, queuedKeys + {key}, stores.seen, key, memberScanWaiter);
        QueueKey(key);
      } else {
        TargetsOkDrop(codec, targets, queuedKeys, stores.seen, key, memberScanWaiter);
        NoBytes(targets[key]);
        targets := targets - {key};
      }
      v := Visited(restored, retries, rejections);
      assert before[key := t.(buffer := if restored then admitted + left else left)] - {key} == before - {key};
      TransferMade(codec, limits, start, key, target, t, made, stores.stopped, v, Snap(), admitted, left,
                   refusals);
    }

    /** The running byte count is recomputed once per cycle. */
    method SumPending() returns (n: nat)
      ensures n == Total(targets, BufferBytes)
    {
      var left := targets;
      n := 0;
      while left != map[]
        invariant n + Total(left, BufferBytes) == Total(targets, BufferBytes)
        decreases |left|
      {
        var k :| k in left;
        TotalRemove(left, BufferBytes, k);
        n := n + SumLen(left[k].buffer);
        left := left - {k};
      }
    }

    method PollStop() returns (stop: bool)
      requires Valid()
      modifies stores
      ensures Valid() && stores.Evolves() && stop == stores.stopped && stores.calls == old(stores.calls)
    {
      hide Limits.Valid, Stores.Conserved, TargetsOk, QueueOk, LogOk, Total, WaiterAfter;
      stop := stores.IsStopped();
      TargetsOkMono(stores.codec, targets, queuedKeys, queuedKeys, old(stores.seen), stores.seen, {}, memberScanWaiter);
    }

    method PollRunning() returns (stop: bool)
      requires Running()
      modifies stores
      ensures Running() && stores.Evolves() && stop == stores.stopped
    {
      hide Valid, RunFits, Snap;
      ghost var stopped := stores.stopped;
      stop := PollStop();
      RunStops(stores.codec, limits, base, history, Snap(), stores.calls, stopped, stores.stopped);
    }

    /** One key scan; every returned key is queued at most once. */
    method ScanKeyPage() returns (failure: Option<string>, ghost call: Call)
      requires Valid() && RoomForKeys(limits, pendingKeys)
      modifies this`keyCursor, this`pendingKeys, this`queuedKeys, stores
      ensures Valid() && stores.Evolves() && old(pendingKeys) <= pendingKeys
      ensures stores.calls == old(stores.calls) + [call] && call.KeysScanned?
      ensures call.cursor == old(keyCursor) && call.maxItems == limits.maxScanResponseItems
      ensures failure == ScanFailure(call.keyReply)
      ensures failure.None? ==>
                keyCursor == call.keyReply.cursor && pendingKeys == QueueAll(old(pendingKeys), call.keyReply.keys)
      ensures failure.Some? ==> pendingKeys == old(pendingKeys) && keyCursor == old(keyCursor)
    {
      hide Limits.Valid, Stores.Conserved, TargetsOk, QueueOk, LogOk, Total, WaiterAfter;
      var page := stores.ScanKeys(keyCursor, limits.maxScanResponseItems);
      call := KeysScanned(old(keyCursor), limits.maxScanResponseItems, page);
      TargetsOkMono(stores.codec, targets, queuedKeys, queuedKeys, old(stores.seen), stores.seen, {}, memberScanWaiter);
      match page {
        case KeyLimitExceeded => failure := Some("redis_key_scan_response_limit_exceeded");
        case KeyScanFailure => failure := Some("redis_key_scan_unavailable");
        case Keys(next, keys) =>
          keyCursor := next;
          for i := 0 to |keys|
            invariant Common() && stores.Evolves() && old(pendingKeys) <= pendingKeys
            invariant stores.calls == old(stores.calls) + [call] && keyCursor == next
            invariant |pendingKeys| <= |old(pendingKeys)| + i && pendingKeys == QueueAll(old(pendingKeys), keys[..i])
            invariant TargetsOk(stores.codec, targets, queuedKeys, stores.seen, {}, memberScanWaiter)
          {
            TargetsOkMono(stores.codec, targets, queuedKeys, queuedKeys + {keys[i]}, stores.seen, stores.seen, {},
                          memberScanWaiter);
            KeyQueued(old(pendingKeys), keys, i, queuedKeys, pendingKeys);
            QueueKey(keys[i]);
          }
          assert keys[..|keys|] == keys;
          failure := None;
      }
    }

    /** Scan for target keys while a full response still fits. */
    method FillPendingKeys() returns (failure: Option<string>, ghost made: seq<Call>)
      requires Valid()
      modifies this`keyCursor, this`pendingKeys, this`queuedKeys, stores
      ensures Valid() && stores.Evolves() && old(pendingKeys) <= pendingKeys
      ensures stores.calls == old(stores.calls) + made
      ensures FillStep(limits, old(Snap()), made, stores.stopped, failure, Snap())
      ensures memberScanWaiter.Some? ==> Bound() == old(Bound())
    {
      hide Limits.Valid, Stores.Conserved, TargetsOk, QueueOk, LogOk, Total, WaitBound, WaiterAfter, KeyScans,
        CursorAfter, QueueAfter, LastFailed;
      failure, made := None, [];
      NoScans(limits, keyCursor, pendingKeys);
      NotFailed();
      var scanCalls := 0;
      while scanCalls < limits.maxScanCallsPerCycle
            && |pendingKeys| <= limits.maxPendingTargetKeys - limits.maxScanResponseItems
        invariant Valid() && stores.Evolves() && old(pendingKeys) <= pendingKeys
        invariant stores.calls == old(stores.calls) + made && |made| == scanCalls <= limits.maxScanCallsPerCycle
        invariant KeyScans(limits, old(keyCursor), old(pendingKeys), made)
        invariant keyCursor == CursorAfter(old(keyCursor), made) && pendingKeys == QueueAfter(old(pendingKeys), made)
        invariant failure.None? && !LastFailed(made)
        invariant made != [] ==> !Enough(limits, keyCursor, pendingKeys)
        decreases limits.maxScanCallsPerCycle - scanCalls
      {
        var stop := PollStop();
        if stop {
          break;
        }
        ghost var call;
        failure, call := ScanKeyPage();
        NextScan(limits, old(keyCursor), old(pendingKeys), made, call);
        made := made + [call];
        if failure.Some? {
          break;
        }
        scanCalls := scanCalls + 1;
        if keyCursor == 0 || |pendingKeys| >= limits.maxTargetsPerCycle {
          break;
        }
      }
      if memberScanWaiter.Some? {
        QueueGrows(stores.codec, limits, old(pendingKeys), old(queuedKeys), pendingKeys, targets, old(stores.seen),
                   memberScanWaiter.value);
      }
    }

    /** Take down a step. */
    ghost method Record(before: Snapshot, step: Step, made: seq<Call>, calls: seq<Call>, stopped: bool)
      requires RunFits(stores.codec, limits, base, history, before, calls, stopped) && stores.calls == calls + made
      requires MoveOk(stores.codec, limits, Move(before, step, made, stores.stopped, Snap()))
      requires stopped ==> stores.stopped
      modifies this`history
      ensures history == old(history) + [Move(before, step, made, stores.stopped, Snap())]
      ensures RunFits(stores.codec, limits, base, history, Snap(), stores.calls, stores.stopped)
    {
      hide RunFits, MoveOk;
      var m := Move(before, step, made, stores.stopped, Snap());
      RunGrows(stores.codec, limits, base, history, calls, stopped, m);
      history := history + [m];
    }

    /** The queue is filled, and the step taken down. */
    method FillNext() returns (failure: Option<string>, ghost m: Move)
      requires Running()
      modifies this`keyCursor, this`pendingKeys, this`queuedKeys, this`history, stores
      ensures Running() && stores.Evolves() && old(pendingKeys) <= pendingKeys
      ensures history == old(history) + [m] && m.step == Fill(failure) && m.after.pending == pendingKeys
      ensures memberScanWaiter.Some? ==> Bound() == old(Bound())
    {
      hide Valid, RunFits, VisitStep, FillStep, Bound, Snap;
      ghost var before, calls, stopped := Snap(), stores.calls, stores.stopped;
      ghost var made;
      failure, made := FillPendingKeys();
      Record(before, Fill(failure), made, calls, stopped);
      m := Move(before, Fill(failure), made, stores.stopped, Snap());
      SnapIs();
    }

    /** A visit that is taken down. */
    method VisitNext(pendingBytes: nat) returns (v: Visit, bytes: nat, ghost m: Move)
      requires Running() && pendingKeys != [] && pendingBytes == Total(targets, BufferBytes)
      modifies this, stores
      ensures Running() && stores.Evolves()
      ensures history == old(history) + [m] && m.step == VisitOne(v)
      ensures v.Visited? ==> bytes == Total(targets, BufferBytes)
      ensures old(log) <= log && (v.VisitRaised? ==> |old(log)| < |log|)
      ensures pendingKeys == old(pendingKeys)[1..] || pendingKeys == old(pendingKeys)[1..] + [old(pendingKeys)[0]]
      ensures old(memberScanWaiter).Some? && log == old(log) && v.Visited? && !v.restored
              ==> memberScanWaiter == old(memberScanWaiter) && Bound() < old(Bound())
    {
      hide Valid, Total, RunFits, VisitStep, FillStep, Bound, Snap;
      ghost var before, calls, stopped := Snap(), stores.calls, stores.stopped;
      ghost var made;
      v, bytes, made := VisitTarget(pendingBytes);
      Record(before, VisitOne(v), made, calls, stopped);
      m := Move(before, VisitOne(v), made, stores.stopped, Snap());
    }

    /** One cycle: fill the queue, then visit the keys that were queued, each once and in order. */
    method ProcessCycle() returns (result: Cycle, ghost moves: seq<Move>)
      requires Running()
      modifies this, stores
      ensures Running() && stores.Evolves() && old(log) <= log
      ensures CycleRuns(old(history), history, moves, result)
      ensures !result.raised && !stores.stopped ==> CycleComplete(limits, moves)
      ensures result.targetsVisited <= limits.maxTargetsPerCycle
      ensures result.targetsVisited <= |old(pendingKeys)| ==> old(pendingKeys)[result.targetsVisited..] <= pendingKeys
      ensures !result.raised && !stores.stopped ==>
                result.targetsVisited == limits.maxTargetsPerCycle || result.targetsVisited >= |old(pendingKeys)|
      ensures result.raised ==> |old(log)| < |log|
      ensures old(memberScanWaiter).Some? && log == old(log) && !result.restored ==>
                && memberScanWaiter == old(memberScanWaiter)
                && Bound() + result.targetsVisited <= old(Bound())
    {
      hide Running, Valid, Total, Bound, CycleRuns, Snap;
      var pendingBytes := SumPending();
      var failure;
      ghost var m;
      failure, m := FillNext();
      CycleBegins(old(history), history, m);
      var retries := if failure.Some? then multiset{failure.value} else multiset{};
      result, moves := VisitQueued(pendingBytes, retries, old(history), m);
    }

    /** The loop of a cycle over the queued keys. */
    method VisitQueued(pendingBytes: nat, retries: multiset<string>, ghost before: seq<Move>, ghost fill: Move)
      returns (result: Cycle, ghost moves: seq<Move>)
      requires Running() && pendingBytes == Total(targets, BufferBytes)
      requires CycleRuns(before, history, [fill], Cycle(0, false, false, retries, multiset{}))
      requires fill.after.pending == pendingKeys
      modifies this, stores
      ensures Running() && stores.Evolves() && old(log) <= log
      ensures CycleRuns(before, history, moves, result)
      ensures !result.raised && !stores.stopped ==> CycleComplete(limits, moves)
      ensures result.targetsVisited <= limits.maxTargetsPerCycle && result.targetsVisited <= |old(pendingKeys)|
      ensures old(pendingKeys)[result.targetsVisited..] <= pendingKeys
      ensures !result.raised && !stores.stopped ==>
                result.targetsVisited == limits.maxTargetsPerCycle || result.targetsVisited == |old(pendingKeys)|
      ensures result.raised ==> |old(log)| < |log|
      ensures old(memberScanWaiter).Some? && log == old(log) && !result.restored ==>
                && memberScanWaiter == old(memberScanWaiter)
                && Bound() + result.targetsVisited <= old(Bound())
    {
      hide Running, Stores.Conserved, Valid, Total, Bound, Snap, CycleRuns, Counted;
      ghost var first, waiter, bound := pendingKeys, memberScanWaiter, if memberScanWaiter.Some? then Bound() else 0;
      moves := [fill];
      result := Cycle(0, false, false, retries, multiset{});
      var targetsThisCycle :=
        if |pendingKeys| < limits.maxTargetsPerCycle then |pendingKeys| else limits.maxTargetsPerCycle;
      var pending := pendingBytes;
      while result.targetsVisited < targetsThisCycle
        invariant result.targetsVisited <= targetsThisCycle <= |first| && !result.raised
        invariant Running() && stores.Evolves() && old(log) <= log
        invariant CycleRuns(before, history, moves, result)
        invariant moves != [] && moves[0].after.pending == first
        invariant first[result.targetsVisited..] <= pendingKeys && pending == Total(targets, BufferBytes)
        invariant waiter.Some? && log == old(log) && !result.restored ==>
                    memberScanWaiter == waiter && Bound() + result.targetsVisited <= bound
        decreases targetsThisCycle - result.targetsVisited
      {
        var stop := PollRunning();
        if stop {
          break;
        }
        var v;
        ghost var m;
        ghost var queue, sofar := pendingKeys, history;
        v, pending, m := VisitNext(pending);
        CycleGrows(before, sofar, moves, result, m);
        QueueAdvances(first, result.targetsVisited, queue, pendingKeys);
        moves := moves + [m];
        CountedIs(result, v);
        result := Counted(result, v);
        if result.raised {
          break;
        }
      }
      CycleEnds(before, history, moves, result);
    }

    /** The waiter is in the queue, so a cycle has something to visit. */
    lemma WaiterQueued()
      requires Valid() && memberScanWaiter.Some?
      ensures pendingKeys != [] && limits.maxTargetsPerCycle > 0
    {
      hide Stores.Conserved, LogOk, Total, WaiterAfter;
    }

    /** Any number of cycles.  A cycle that raises is followed by the next one on the same state.  As long as no
        batch is given back, every visit of a run brings the waiter nearer its scan: it is scanned before more
        visits than Bound() have passed, and before as many cycles have unless the run is stopped. */
    method RunProcessor(cycles: nat) returns (ghost visits: nat, ghost restored: bool)
      requires Running()
      modifies this, stores
      ensures Running() && stores.Conserved() && old(stores.seen) <= stores.seen && old(log) <= log
      ensures old(history) <= history && (!stores.stopped ==> Fills(history) == Fills(old(history)) + cycles)
      ensures forall e :: e in old(stores.seen) ==> e in stores.redis || stores.Transferred(e)
      ensures old(memberScanWaiter).Some? && !restored && log == old(log) ==>
                memberScanWaiter == old(memberScanWaiter) && Bound() + visits <= old(Bound())
      ensures old(memberScanWaiter).Some? && !restored
              && (visits > old(Bound()) || (cycles > old(Bound()) && !stores.stopped)) ==>
                |log| > |old(log)| && log[|old(log)|] == Scanned(old(memberScanWaiter).value)
    {
      hide Bound, WaitBound, TargetsOk, QueueOk, Total, Limits.Valid, RunFits, CycleMoves, Snap, Fills;
      visits, restored := 0, false;
      var done := 0;
      var stop := PollRunning();
      while !stop && done < cycles
        invariant Running() && stores.Evolves() && old(log) <= log && done <= cycles
        invariant old(history) <= history && Fills(history) == Fills(old(history)) + done
        invariant stop ==> stores.stopped
        invariant old(memberScanWaiter).Some? && !restored && log == old(log) ==>
                    && memberScanWaiter == old(memberScanWaiter) && Bound() + visits <= old(Bound())
                    && (!stores.stopped ==> visits >= done)
        decreases cycles - done
      {
        if memberScanWaiter.Some? { WaiterQueued(); }
        ghost var before := history;
        ghost var moves;
        var result;
        result, moves := ProcessCycle();
        OneFill(before, moves);
        visits, restored := visits + result.targetsVisited, restored || result.restored;
        stop := PollRunning();
        done := done + 1;
      }
      if old(memberScanWaiter).Some? && |log| > |old(log)| {
        WaiterServedNext(old(log), log);
      }
    }
  }

  /** Whatever follows while there is a waiter begins with its scan. */
  lemma WaiterServedNext(log: seq<Event>, later: seq<Event>)
    requires LogOk(later) && log <= later && |log| < |later| && WaiterAfter(log).Some?
    ensures later[|log|] == Scanned(WaiterAfter(log).value)
  {
    assert later[..|log|] == log;
  }

  lemma NotFailed()
    ensures !LastFailed([])
  {
  }

  /** One key more is queued. */
  lemma KeyQueued(before: seq<Raw>, keys: seq<Raw>, i: nat, queued: set<Raw>, pending: seq<Raw>)
    requires i < |keys| && QueueOk(pending, queued) && pending == QueueAll(before, keys[..i])
    ensures QueueAll(before, keys[..i + 1]) == if keys[i] in queued then pending else pending + [keys[i]]
  {
    assert keys[..i + 1][..i] == keys[..i];
  }

  /** Appending keys to the queue does not lengthen the wait. */
  lemma QueueGrows(codec: Codec, limits: Limits, pending: seq<Raw>, queued: set<Raw>, pending': seq<Raw>,
                   targets: Targets, seen: set<Edge>, waiter: Raw)
    requires QueueOk(pending, queued) && pending <= pending'
    requires TargetsOk(codec, targets, queued, seen, {}, Some(waiter))
    ensures WaitBound(limits, pending', targets, waiter) == WaitBound(limits, pending, targets, waiter)
  {
    hide Total, Times;
    var goal := if Buffered(targets) == {} then {waiter} else Buffered(targets);
    var k :| k in goal;
    assert k in pending;
    assert pending' == pending + pending'[|pending|..];
    BeforeAppend(pending, goal, pending'[|pending|..]);
  }

  lemma QueueAdvances(first: seq<Raw>, visited: nat, queue: seq<Raw>, next: seq<Raw>)
    requires visited < |first| && first[visited..] <= queue && queue != []
    requires next == queue[1..] || next == queue[1..] + [queue[0]]
    ensures first[visited + 1..] <= next
  {
    assert first[visited + 1..] == first[visited..][1..];
  }

  /** Only the entry of key accounts for a difference in buffered bytes. */
  lemma SameBytes(before: Targets, after: Targets, key: Raw)
    requires key in before && key in after && after == before[key := after[key]]
    ensures Total(after, BufferBytes) + SumLen(before[key].buffer)
            == Total(before, BufferBytes) + SumLen(after[key].buffer)
  {
    hide Total, SumLen;
    assert after - {key} == before - {key};
    TotalRemove(before, BufferBytes, key);
    TotalRemove(after, BufferBytes, key);
  }

  lemma NoBytes(state: Target)
    ensures state.buffer == [] ==> SumLen(state.buffer) == 0 && BufferBytes(state) == 0 && BufferCount(state) == 0
  {
  }

  /** A popped key in front of the rest of the queue. */
  lemma PutBack(pending: seq<Raw>, queued: set<Raw>, key: Raw)
    requires QueueOk(pending, queued) && key !in queued
    ensures QueueOk([key] + pending, queued + {key})
  {
    assert forall k :: k in [key] + pending <==> k == key || k in pending;
  }

  lemma BudgetHoldsPage(limits: Limits)
    requires limits.Valid()
    ensures limits.ScanByteLimit() <= limits.maxPendingMemberBytes
  {
  }

  lemma UnparsedKey(codec: Codec, limits: Limits, pending: seq<Raw>, queued: set<Raw>, targets: Targets,
                    seen: set<Edge>, waiter: Option<Raw>)
    requires QueueOk(pending, queued) && pending != [] && codec.parseKey(pending[0]).Err?
    requires TargetsOk(codec, targets, queued, seen, {}, waiter)
    ensures TargetsOk(codec, targets, queued - {pending[0]}, seen, {}, waiter)
    ensures waiter.Some? ==>
              WaitBound(limits, pending[1..], targets, waiter.value) < WaitBound(limits, pending, targets, waiter.value)
  {
    if waiter.Some? {
      assert pending[0] !in Buffered(targets) && pending[0] != waiter.value;
    }
  }

  lemma OpenTarget(codec: Codec, targets: Targets, queued: set<Raw>, seen: set<Edge>, waiter: Option<Raw>, key: Raw)
    requires TargetsOk(codec, targets, queued, seen, {}, waiter)
    requires key in queued && codec.parseKey(key).Ok?
    ensures var started := if key in targets then targets else targets[key := NEW_TARGET];
            && TargetsOk(codec, started, queued, seen, {key}, waiter)
            && Total(started, BufferBytes) == Total(targets, BufferBytes)
            && Total(started, BufferCount) == Total(targets, BufferCount)
            && Buffered(started) == Buffered(targets)
            && (started[key].buffer == [] ==> key !in Buffered(targets))
            && (started[key].buffer == [] ==> !started[key].complete)
            && (waiter == Some(key) ==> started[key].buffer == [])
  {
    if key !in targets {
      TotalAbsent(targets, key);
      TotalSet(targets, BufferBytes, key, NEW_TARGET);
      TotalSet(targets, BufferCount, key, NEW_TARGET);
      assert Buffered(targets[key := NEW_TARGET]) == Buffered(targets);
    }
  }

  /** A blocked key moves to the back of the queue; the first buffered target moves forward. */
  lemma ProgressRotate(codec: Codec, limits: Limits, pending: seq<Raw>, queued: set<Raw>, targets: Targets,
                       targets': Targets, seen: set<Edge>, waiter: Raw)
    requires QueueOk(pending, queued) && pending != []
    requires TargetsOk(codec, targets, queued, seen, {}, Some(waiter))
    requires pending[0] !in Buffered(targets) && Buffered(targets') == Buffered(targets)
    requires Total(targets', BufferCount) == Total(targets, BufferCount)
    requires pending[0] == waiter ==> Total(targets, BufferBytes) > 0
    ensures WaitBound(limits, pending[1..] + [pending[0]], targets', waiter)
            < WaitBound(limits, pending, targets, waiter)
  {
    hide Total, Times;
    BufferedCount(targets);
    var goal := if Buffered(targets) == {} then {waiter} else Buffered(targets);
    assert pending == [pending[0]] + pending[1..];
    var k :| k in goal;
    assert k in pending[1..];
    BeforeAppend(pending[1..], goal, [pending[0]]);
  }

  /** A transferred or dropped member outweighs any change in queue position. */
  lemma ProgressShrink(limits: Limits, pending: seq<Raw>, targets: Targets, pending': seq<Raw>, targets': Targets,
                       waiter: Raw)
    requires Total(targets', BufferCount) < Total(targets, BufferCount)
    requires |pending'| <= limits.maxPendingTargetKeys
    ensures WaitBound(limits, pending', targets', waiter) < WaitBound(limits, pending, targets, waiter)
  {
    hide Total, Times, Before;
    var c', c, w := Total(targets', BufferCount), Total(targets, BufferCount), limits.maxPendingTargetKeys + 1;
    TimesComm(c, w);
    TimesComm(c', w);
    TimesMono(w, c' + 1, c);
    TimesAdd(w, c', 1);
    TimesOne(w);
  }

  lemma KeepBuffer(targets: Targets, key: Raw, keep: seq<Raw>)
    requires key in targets
    ensures var targets' := targets[key := targets[key].(buffer := keep)];
            && targets' - {key} == targets - {key}
            && Total(targets', BufferBytes) + SumLen(targets[key].buffer) == Total(targets, BufferBytes) + SumLen(keep)
            && Total(targets', BufferCount) + |targets[key].buffer| == Total(targets, BufferCount) + |keep|
  {
    var t := targets[key].(buffer := keep);
    assert targets[key := t] - {key} == targets - {key};
    TotalRemove(targets, BufferBytes, key);
    TotalRemove(targets, BufferCount, key);
    TotalSet(targets, BufferBytes, key, t);
    TotalSet(targets, BufferCount, key, t);
  }
}
