/** One step of the scheduler as a relation between its state before, the calls it makes and their replies, and its
    state after. */
module BacklinkSteps {
  import opened Outcomes
  import opened BacklinkStores
  import opened BacklinkBuffers
  import opened BacklinkAdmission

  datatype BatchStatus = Acked(removed: nat) | Rejected(reason: string) | RetryLater(reason: string)

  /** The outcome of one visit: a Redis error leaves the cycle. */
  datatype Visit = Visited(restored: bool, retries: multiset<string>, rejections: multiset<string>) | VisitRaised

  /** What the processor keeps between two steps. */
  datatype Snapshot = Snapshot(cursor: nat, pending: seq<Raw>, targets: Targets, waiter: Option<Raw>)

  //////////////////////////////////////////////////////////////////////////////
  // A batch
  //////////////////////////////////////////////////////////////////////////////

  function Sources(codec: Codec, members: seq<Raw>): seq<Url>
    requires forall m :: m in members ==> codec.parseMember(m).Ok?
  {
    seq(|members|, i requires 0 <= i < |members| => assert members[i] in members; codec.parseMember(members[i]).value)
  }

  /** What a batch is reported as when the add ends like this without an acknowledgement. */
  function Refusal(outcome: MongoOutcome): BatchStatus
    requires !outcome.Acknowledged?
  {
    match outcome
    case DocumentRejected(reason) => Rejected(reason)
    case WriteConflict => RetryLater("mongo_write_conflict")
    case NotAcknowledged => RetryLater("mongo_write_not_acknowledged")
    case Unavailable => RetryLater("mongo_unavailable")
    case OtherMongoError => Rejected("mongo_write_rejected")
  }

  /** First one add of all members; only if it is acknowledged, one removal of exactly those members. */
  ghost predicate BatchCalls(codec: Codec, key: Raw, target: Url, members: seq<Raw>, made: seq<Call>, r: BatchStatus) {
    && (forall m :: m in members ==> codec.parseMember(m).Ok?)
    && made != [] && made[0].BacklinksAdded? && made[0].target == target && made[0].sources == Sources(codec, members)
    && if made[0].outcome.Acknowledged? then
         && |made| == 2 && made[1].MembersRemoved? && made[1].key == key && made[1].members == members
         && r == (match made[1].removed case None => RetryLater("redis_ack_unavailable") case Some(n) => Acked(n))
       else |made| == 1 && r == Refusal(made[0].outcome)
  }

  /** The last call has removed members from Redis. */
  predicate Removed(made: seq<Call>) {
    made != [] && made[|made| - 1].MembersRemoved? && made[|made| - 1].removed.Some?
  }

  function RemovedMembers(made: seq<Call>): seq<Raw>
    requires Removed(made)
  {
    made[|made| - 1].members
  }

  lemma CallsMade(codec: Codec, key: Raw, target: Url, members: seq<Raw>, made: seq<Call>, r: BatchStatus,
                  stopped: bool)
    requires BatchCalls(codec, key, target, members, made, r)
    ensures made != [] && (Removed(made) ==> r.Acked? && RemovedMembers(made) == members)
    ensures SendCalls(codec, key, target, members, made, stopped, r.RetryLater?,
                      if r.RetryLater? then multiset{r.reason} else multiset{},
                      if r.Rejected? then multiset{r.reason} else multiset{})
  {
    hide Sources;
  }

  /** A batch is sent, or given back because the processor is stopped; and given back when it must be retried. */
  ghost predicate SendCalls(codec: Codec, key: Raw, target: Url, members: seq<Raw>, made: seq<Call>, stopped: bool,
                            restored: bool, retries: multiset<string>, refusals: multiset<string>)
  {
    if made == [] then stopped && restored && retries == multiset{} && refusals == multiset{}
    else exists r ::
      && BatchCalls(codec, key, target, members, made, r) && (restored <==> r.RetryLater?)
      && retries == (if r.RetryLater? then multiset{r.reason} else multiset{})
      && refusals == if r.Rejected? then multiset{r.reason} else multiset{}
  }

  //////////////////////////////////////////////////////////////////////////////
  // A visit
  //////////////////////////////////////////////////////////////////////////////

  /** The tail of a visit to a target in state t: the admitted members are sent, and what is left, or given back,
      decides whether the target is queued again. */
  ghost predicate TransferStep(codec: Codec, limits: Limits, a: Snapshot, key: Raw, target: Url, t: Target,
                               made: seq<Call>, stopped: bool, v: Visit, b: Snapshot)
  {
    exists admitted, left, refusals ::
      && Transfers(codec, limits, key, target, t, made, stopped, v, admitted, left, refusals)
      && b == Requeued(a, key, t.(buffer := if v.restored then admitted + left else left))
  }

  /** The admitted members are sent; the others that were examined, and a refused batch, are reported. */
  ghost predicate Transfers(codec: Codec, limits: Limits, key: Raw, target: Url, t: Target, made: seq<Call>,
                            stopped: bool, v: Visit, admitted: seq<Raw>, left: seq<Raw>, refusals: multiset<string>)
  {
    && IsAdmission(codec, limits, t.buffer, admitted, left) && v.Visited?
    && (if admitted == [] then made == [] && !v.restored && v.retries == multiset{} && refusals == multiset{}
        else SendCalls(codec, key, target, admitted, made, stopped, v.restored, v.retries, refusals))
    && v.rejections == Unsendable(codec, limits, t.buffer[..|t.buffer| - |left|]) + refusals
  }

  /** The state after a visit that leaves the target in state t. */
  function Requeued(a: Snapshot, key: Raw, t: Target): Snapshot {
    if t.buffer != [] || !t.complete then a.(pending := a.pending + [key], targets := a.targets[key := t])
    else a.(targets := a.targets - {key})
  }

  /** No page may be read for key now: another target waits for one, or a full page might not fit. */
  ghost predicate MustWait(limits: Limits, a: Snapshot, key: Raw) {
    || a.waiter !in {None, Some(key)}
    || Total(a.targets, BufferBytes) + limits.ScanByteLimit() > limits.maxPendingMemberBytes
  }

  /** A visit to the first key of the queue. */
  ghost predicate VisitStep(codec: Codec, limits: Limits, a: Snapshot, made: seq<Call>, stopped: bool, v: Visit,
                            b: Snapshot)
  {
    a.pending != [] &&
    (var key := a.pending[0];
     var popped := a.(pending := a.pending[1..]);
     match codec.parseKey(key)
     case Err(code) => made == [] && v == Visited(false, multiset{}, multiset{code}) && b == popped
     case Ok(target) =>
       var t := if key in a.targets then a.targets[key] else Target(0, false, []);
       if t.buffer != [] || t.complete then TransferStep(codec, limits, popped, key, target, t, made, stopped, v, b)
       else if MustWait(limits, a, key) then
         && made == [] && v == Visited(false, multiset{"pending_member_byte_limit"}, multiset{})
         && b == Requeued(popped.(waiter := if a.waiter == None then Some(key) else a.waiter), key, t)
       else
         made != [] && made[0].MembersScanned?
         && made[0] == MembersScanned(key, t.cursor, limits.maxScanResponseItems, made[0].page)
         && ScanStep(codec, limits, popped.(waiter := None), key, target, t, made[0].page, made[1..], stopped, v, b))
  }

  /** The rest of a visit that has scanned a page. */
  ghost predicate ScanStep(codec: Codec, limits: Limits, a: Snapshot, key: Raw, target: Url, t: Target,
                           page: MemberScan, made: seq<Call>, stopped: bool, v: Visit, b: Snapshot)
  {
    match page
    case InvalidSet(reason) =>
      made == [] && v == Visited(false, multiset{}, multiset{reason}) && b == a.(targets := a.targets - {key})
    case RedisFailure => made == [] && v.VisitRaised? && b == Requeued(a, key, t)
    case Page(next, members) =>
      if SumLen(members) > limits.ScanByteLimit() then made == [] && v.VisitRaised? && b == Requeued(a, key, t)
      else TransferStep(codec, limits, a, key, target, Target(next, next == 0, members), made, stopped, v, b)
  }

  lemma SameWait(limits: Limits, a: Snapshot, b: Snapshot, key: Raw)
    requires a.waiter == b.waiter && Total(a.targets, BufferBytes) == Total(b.targets, BufferBytes)
    ensures MustWait(limits, a, key) <==> MustWait(limits, b, key)
  {
  }

  lemma TransfersMade(codec: Codec, limits: Limits, key: Raw, target: Url, t: Target, made: seq<Call>, stopped: bool,
                      v: Visit, admitted: seq<Raw>, left: seq<Raw>, refusals: multiset<string>)
    requires IsAdmission(codec, limits, t.buffer, admitted, left) && v.Visited?
    requires if admitted == [] then made == [] && !v.restored && v.retries == multiset{} && refusals == multiset{}
             else SendCalls(codec, key, target, admitted, made, stopped, v.restored, v.retries, refusals)
    requires v.rejections == Unsendable(codec, limits, t.buffer[..|t.buffer| - |left|]) + refusals
    ensures Transfers(codec, limits, key, target, t, made, stopped, v, admitted, left, refusals)
  {
  }

  lemma TransferMade(codec: Codec, limits: Limits, a: Snapshot, key: Raw, target: Url, t: Target, made: seq<Call>,
                     stopped: bool, v: Visit, b: Snapshot, admitted: seq<Raw>, left: seq<Raw>,
                     refusals: multiset<string>)
    requires Transfers(codec, limits, key, target, t, made, stopped, v, admitted, left, refusals)
    requires b == Requeued(a, key, t.(buffer := if v.restored then admitted + left else left))
    ensures TransferStep(codec, limits, a, key, target, t, made, stopped, v, b)
  {
    hide Transfers, Requeued;
  }

  /** The tail of a visit does not look at the entry that it replaces. */
  lemma TransferAnyTarget(codec: Codec, limits: Limits, a: Snapshot, key: Raw, target: Url, entry: Target, t: Target,
                          made: seq<Call>, stopped: bool, v: Visit, b: Snapshot)
    requires TransferStep(codec, limits, a.(targets := a.targets[key := entry]), key, target, t, made, stopped, v, b)
    ensures TransferStep(codec, limits, a, key, target, t, made, stopped, v, b)
  {
    var admitted, left, refusals :|
      && Transfers(codec, limits, key, target, t, made, stopped, v, admitted, left, refusals)
      && b == Requeued(a.(targets := a.targets[key := entry]), key,
                       t.(buffer := if v.restored then admitted + left else left));
    assert v.Visited?;
    hide Transfers;
    RequeuedAny(a, key, entry, t.(buffer := if v.restored then admitted + left else left));
  }

  lemma RequeuedAny(a: Snapshot, key: Raw, entry: Target, t: Target)
    ensures Requeued(a.(targets := a.targets[key := entry]), key, t) == Requeued(a, key, t)
  {
    assert a.targets[key := entry][key := t] == a.targets[key := t];
    assert a.targets[key := entry] - {key} == a.targets - {key};
  }

  lemma ScanAnyTarget(codec: Codec, limits: Limits, a: Snapshot, key: Raw, target: Url, t: Target, page: MemberScan,
                      stopped: bool, v: Visit, b: Snapshot)
    requires ScanStep(codec, limits, a.(targets := a.targets[key := t]), key, target, t, page, [], stopped, v, b)
    ensures ScanStep(codec, limits, a, key, target, t, page, [], stopped, v, b)
  {
    hide TransferStep;
    RequeuedAny(a, key, t, t);
    assert a.targets[key := t] - {key} == a.targets - {key};
    match page
    case Page(next, members) =>
      if SumLen(members) <= limits.ScanByteLimit() {
        var u := Target(next, next == 0, members);
        TransferAnyTarget(codec, limits, a, key, target, t, u, [], stopped, v, b);
      }
    case _ =>
  }

  lemma VisitUnparsed(codec: Codec, limits: Limits, a: Snapshot, stopped: bool)
    requires a.pending != [] && codec.parseKey(a.pending[0]).Err?
    ensures VisitStep(codec, limits, a, [], stopped,
                      Visited(false, multiset{}, multiset{codec.parseKey(a.pending[0]).code}),
                      a.(pending := a.pending[1..]))
  {
  }

  /** The state in which a target is visited: its key is popped, and it has an entry. */
  ghost predicate Opened(codec: Codec, a: Snapshot, o: Snapshot, target: Url, t: Target) {
    && a.pending != [] && codec.parseKey(a.pending[0]) == Ok(target)
    && t == (if a.pending[0] in a.targets then a.targets[a.pending[0]] else Target(0, false, []))
    && o == a.(pending := a.pending[1..], targets := a.targets[a.pending[0] := t])
  }

  lemma SameEntry(a: Targets, key: Raw, t: Target, u: Target)
    ensures a[key := t][key := u] == a[key := u] && a[key := t] - {key} == a - {key}
  {
  }

  /** A visit that may scan does what follows from its page. */
  lemma VisitScans(codec: Codec, limits: Limits, a: Snapshot, target: Url, t: Target, page: MemberScan, sent: seq<Call>,
                   stopped: bool, v: Visit, b: Snapshot)
    requires a.pending != [] && codec.parseKey(a.pending[0]) == Ok(target) && !MustWait(limits, a, a.pending[0])
    requires t == (if a.pending[0] in a.targets then a.targets[a.pending[0]] else Target(0, false, []))
    requires t.buffer == [] && !t.complete
    requires ScanStep(codec, limits, a.(pending := a.pending[1..], waiter := None), a.pending[0], target, t, page, sent,
                      stopped, v, b)
    ensures VisitStep(codec, limits, a,
                      [MembersScanned(a.pending[0], t.cursor, limits.maxScanResponseItems, page)] + sent, stopped, v, b)
  {
    hide MustWait, ScanStep, TransferStep;
    var made := [MembersScanned(a.pending[0], t.cursor, limits.maxScanResponseItems, page)] + sent;
    assert made[0].page == page && made[1..] == sent;
  }

  /** A visit to an empty target that ends without a page. */
  lemma VisitOver(codec: Codec, limits: Limits, a: Snapshot, o: Snapshot, target: Url, t: Target, page: MemberScan,
                  made: seq<Call>, stopped: bool, v: Visit, b: Snapshot)
    requires Opened(codec, a, o, target, t) && t.buffer == [] && !t.complete
    requires MustWait(limits, a, a.pending[0]) <==> MustWait(limits, o, a.pending[0])
    requires if MustWait(limits, o, a.pending[0]) then
               && made == [] && v == Visited(false, multiset{"pending_member_byte_limit"}, multiset{})
               && b == Requeued(o.(waiter := if o.waiter == None then Some(a.pending[0]) else o.waiter),
                                a.pending[0], t)
             else
               && made == [MembersScanned(a.pending[0], t.cursor, limits.maxScanResponseItems, page)]
               && ScanStep(codec, limits, o.(waiter := None), a.pending[0], target, t, page, [], stopped, v, b)
    ensures VisitStep(codec, limits, a, made, stopped, v, b)
  {
    hide MustWait, ScanStep, TransferStep;
    var key := a.pending[0];
    var popped := a.(pending := a.pending[1..]);
    SameEntry(a.targets, key, t, t);
    if MustWait(limits, o, key) {
      RequeuedAny(popped.(waiter := if o.waiter == None then Some(key) else o.waiter), key, t, t);
    } else {
      ScanAnyTarget(codec, limits, popped.(waiter := None), key, target, t, page, stopped, v, b);
      VisitScans(codec, limits, a, target, t, page, [], stopped, v, b);
      assert made + [] == made;
    }
  }

  /** A visit that comes to a transfer, from a page or from what was buffered. */
  lemma VisitSends(codec: Codec, limits: Limits, a: Snapshot, o: Snapshot, h: Snapshot, target: Url, t: Target,
                   u: Target, scanned: seq<Call>, sent: seq<Call>, stopped: bool, v: Visit, b: Snapshot)
    requires Opened(codec, a, o, target, t)
    requires MustWait(limits, a, a.pending[0]) <==> MustWait(limits, o, a.pending[0])
    requires TransferStep(codec, limits, h, a.pending[0], target, u, sent, stopped, v, b)
    requires if t.buffer != [] || t.complete then scanned == [] && h == o && u == t
             else
               && !MustWait(limits, o, a.pending[0]) && |scanned| == 1 && scanned[0].MembersScanned?
               && scanned[0] == MembersScanned(a.pending[0], t.cursor, limits.maxScanResponseItems, scanned[0].page)
               && scanned[0].page.Page? && SumLen(scanned[0].page.members) <= limits.ScanByteLimit()
               && u == Target(scanned[0].page.cursor, scanned[0].page.cursor == 0, scanned[0].page.members)
               && h == o.(waiter := None, targets := o.targets[a.pending[0] := u])
    ensures VisitStep(codec, limits, a, scanned + sent, stopped, v, b)
  {
    hide MustWait, TransferStep;
    var key := a.pending[0];
    var popped := a.(pending := a.pending[1..]);
    SameEntry(a.targets, key, t, u);
    if t.buffer != [] || t.complete {
      TransferAnyTarget(codec, limits, popped, key, target, t, t, sent, stopped, v, b);
      assert scanned + sent == sent;
    } else {
      TransferAnyTarget(codec, limits, popped.(waiter := None), key, target, u, u, sent, stopped, v, b);
      VisitScans(codec, limits, a, target, t, scanned[0].page, sent, stopped, v, b);
      assert scanned == [scanned[0]];
    }
  }

  //////////////////////////////////////////////////////////////////////////////
  // Filling the queue
  //////////////////////////////////////////////////////////////////////////////

  /** The queue after some keys were found: each that is not in it yet goes to the back. */
  function QueueAll(pending: seq<Raw>, keys: seq<Raw>): seq<Raw> {
    if keys == [] then pending
    else
      var q := QueueAll(pending, keys[..|keys| - 1]);
      if keys[|keys| - 1] in q then q else q + [keys[|keys| - 1]]
  }

  function CursorAfter(cursor: nat, made: seq<Call>): nat {
    if made == [] then cursor
    else
      var last := made[|made| - 1];
      if last.KeysScanned? && last.keyReply.Keys? then last.keyReply.cursor else CursorAfter(cursor, made[..|made| - 1])
  }

  function QueueAfter(pending: seq<Raw>, made: seq<Call>): seq<Raw> {
    if made == [] then pending
    else
      var last, q := made[|made| - 1], QueueAfter(pending, made[..|made| - 1]);
      if last.KeysScanned? && last.keyReply.Keys? then QueueAll(q, last.keyReply.keys) else q
  }

  /** A full response still fits into the queue. */
  predicate RoomForKeys(limits: Limits, pending: seq<Raw>) {
    |pending| + limits.maxScanResponseItems <= limits.maxPendingTargetKeys
  }

  /** After this scan the queue has enough keys, or the scan has come round. */
  predicate Enough(limits: Limits, cursor: nat, pending: seq<Raw>) {
    cursor == 0 || |pending| >= limits.maxTargetsPerCycle
  }

  /** What a cycle reports for a reply to a key scan. */
  function ScanFailure(reply: KeyScan): Option<string> {
    match reply
    case Keys(_, _) => None
    case KeyLimitExceeded => Some("redis_key_scan_response_limit_exceeded")
    case KeyScanFailure => Some("redis_key_scan_unavailable")
  }

  ghost predicate LastFailed(made: seq<Call>) {
    made != [] && made[|made| - 1].KeysScanned? && !made[|made| - 1].keyReply.Keys?
  }

  /** Every scan goes on where the one before ended, with room for its response, and only while there is need. */
  ghost predicate KeyScans(limits: Limits, cursor: nat, pending: seq<Raw>, made: seq<Call>) {
    made == [] ||
    (var earlier, call := made[..|made| - 1], made[|made| - 1];
     && KeyScans(limits, cursor, pending, earlier) && call.KeysScanned?
     && call.cursor == CursorAfter(cursor, earlier) && call.maxItems == limits.maxScanResponseItems
     && RoomForKeys(limits, QueueAfter(pending, earlier))
     && (earlier != [] ==>
           !LastFailed(earlier) && !Enough(limits, CursorAfter(cursor, earlier), QueueAfter(pending, earlier))))
  }

  lemma NoScans(limits: Limits, cursor: nat, pending: seq<Raw>)
    ensures KeyScans(limits, cursor, pending, [])
    ensures CursorAfter(cursor, []) == cursor && QueueAfter(pending, []) == pending
  {
  }

  /** One scan more. */
  lemma NextScan(limits: Limits, cursor: nat, pending: seq<Raw>, made: seq<Call>, call: Call)
    requires KeyScans(limits, cursor, pending, made) && call.KeysScanned?
    requires call.cursor == CursorAfter(cursor, made) && call.maxItems == limits.maxScanResponseItems
    requires RoomForKeys(limits, QueueAfter(pending, made))
    requires made != [] ==> !LastFailed(made) && !Enough(limits, CursorAfter(cursor, made), QueueAfter(pending, made))
    ensures KeyScans(limits, cursor, pending, made + [call])
    ensures CursorAfter(cursor, made + [call]) ==
              if call.keyReply.Keys? then call.keyReply.cursor else CursorAfter(cursor, made)
    ensures QueueAfter(pending, made + [call]) ==
              if call.keyReply.Keys? then QueueAll(QueueAfter(pending, made), call.keyReply.keys)
              else QueueAfter(pending, made)
    ensures LastFailed(made + [call]) <==> !call.keyReply.Keys?
  {
    hide QueueAll, CursorAfter, QueueAfter, RoomForKeys, Enough;
    AfterOne(cursor, pending, made, call);
    assert (made + [call])[..|made|] == made;
  }

  lemma AfterOne(cursor: nat, pending: seq<Raw>, made: seq<Call>, call: Call)
    requires call.KeysScanned?
    ensures CursorAfter(cursor, made + [call]) ==
              if call.keyReply.Keys? then call.keyReply.cursor else CursorAfter(cursor, made)
    ensures QueueAfter(pending, made + [call]) ==
              if call.keyReply.Keys? then QueueAll(QueueAfter(pending, made), call.keyReply.keys)
              else QueueAfter(pending, made)
  {
    hide QueueAll;
    assert (made + [call])[..|made|] == made;
  }

  /** Filling the queue: as many scans as are needed, fit, and are allowed, unless one fails or the processor stops. */
  ghost predicate FillStep(limits: Limits, a: Snapshot, made: seq<Call>, stopped: bool, failure: Option<string>,
                           b: Snapshot)
  {
    && KeyScans(limits, a.cursor, a.pending, made) && |made| <= limits.maxScanCallsPerCycle
    && b == a.(cursor := CursorAfter(a.cursor, made), pending := QueueAfter(a.pending, made))
    && failure == (if LastFailed(made) then ScanFailure(made[|made| - 1].keyReply) else None)
    && (stopped || LastFailed(made) || |made| == limits.maxScanCallsPerCycle || !RoomForKeys(limits, b.pending)
        || (made != [] && Enough(limits, b.cursor, b.pending)))
  }

  /** An empty queue has room for a response, so filling it scans at least once unless the processor is stopped. */
  lemma EmptyQueueScans(limits: Limits, a: Snapshot, made: seq<Call>, failure: Option<string>, b: Snapshot)
    requires limits.Valid() && FillStep(limits, a, made, false, failure, b) && a.pending == []
    ensures made != []
  {
    hide KeyScans;
  }

  //////////////////////////////////////////////////////////////////////////////
  // Runs
  //////////////////////////////////////////////////////////////////////////////

  datatype Step = Fill(failure: Option<string>) | VisitOne(v: Visit)

  /** A step with the calls it made, and whether the processor was stopped by then. */
  datatype Move = Move(before: Snapshot, step: Step, made: seq<Call>, stopped: bool, after: Snapshot)

  ghost predicate MoveOk(codec: Codec, limits: Limits, m: Move) {
    match m.step
    case Fill(failure) => FillStep(limits, m.before, m.made, m.stopped, failure, m.after)
    case VisitOne(v) => VisitStep(codec, limits, m.before, m.made, m.stopped, v, m.after)
  }

  function Made(history: seq<Move>): seq<Call> {
    if history == [] then [] else Made(history[..|history| - 1]) + history[|history| - 1].made
  }

  const START := Snapshot(0, [], map[], None)

  /** Where a run from the start has come to. */
  function EndOf(history: seq<Move>): Snapshot {
    if history == [] then START else history[|history| - 1].after
  }

  /** A run: each step follows the rules and begins where the one before ended. */
  ghost predicate RunOk(codec: Codec, limits: Limits, history: seq<Move>) {
    history == [] ||
    (var earlier, m := history[..|history| - 1], history[|history| - 1];
     RunOk(codec, limits, earlier) && MoveOk(codec, limits, m) && m.before == EndOf(earlier))
  }

  /** The run explains the state, and all calls since base. */
  ghost predicate RunFits(codec: Codec, limits: Limits, base: seq<Call>, history: seq<Move>, now: Snapshot,
                          calls: seq<Call>, stopped: bool)
  {
    && RunOk(codec, limits, history) && EndOf(history) == now && calls == base + Made(history)
    && forall i :: 0 <= i < |history| && history[i].stopped ==> stopped
  }

  lemma RunStarts(codec: Codec, limits: Limits, base: seq<Call>, stopped: bool)
    ensures RunFits(codec, limits, base, [], START, base, stopped)
  {
    assert base + [] == base;
  }

  lemma RunStops(codec: Codec, limits: Limits, base: seq<Call>, history: seq<Move>, now: Snapshot, calls: seq<Call>,
                 stopped: bool, later: bool)
    requires RunFits(codec, limits, base, history, now, calls, stopped) && (stopped ==> later)
    ensures RunFits(codec, limits, base, history, now, calls, later)
  {
    hide RunOk, Made;
  }

  /** One step more. */
  lemma RunGrows(codec: Codec, limits: Limits, base: seq<Call>, history: seq<Move>, calls: seq<Call>, stopped: bool,
                 m: Move)
    requires RunFits(codec, limits, base, history, m.before, calls, stopped) && MoveOk(codec, limits, m)
    requires stopped ==> m.stopped
    ensures RunFits(codec, limits, base, history + [m], m.after, calls + m.made, m.stopped)
  {
    hide MoveOk, RunOk, Made;
    RunOkGrows(codec, limits, history, m);
    MadeOne(history, m);
    assert (history + [m])[|history|] == m;
    forall i | 0 <= i < |history + [m]| && (history + [m])[i].stopped ensures m.stopped {
      if i < |history| { assert (history + [m])[i] == history[i]; }
    }
    assert base + Made(history) + m.made == base + (Made(history) + m.made);
  }

  lemma RunOkGrows(codec: Codec, limits: Limits, history: seq<Move>, m: Move)
    requires RunOk(codec, limits, history) && MoveOk(codec, limits, m) && m.before == EndOf(history)
    ensures RunOk(codec, limits, history + [m])
  {
    hide MoveOk;
    assert (history + [m])[..|history|] == history;
  }

  lemma MadeOne(history: seq<Move>, m: Move)
    ensures Made(history + [m]) == Made(history) + m.made
  {
    assert (history + [m])[..|history|] == history;
  }

  //////////////////////////////////////////////////////////////////////////////
  // Cycles
  //////////////////////////////////////////////////////////////////////////////

  /** The totals of a cycle. */
  datatype Cycle = Cycle(targetsVisited: nat, raised: bool, restored: bool, retries: multiset<string>,
                         rejections: multiset<string>)

  /** The totals after one more visit. */
  function Counted(c: Cycle, v: Visit): Cycle {
    match v
    case VisitRaised => c.(targetsVisited := c.targetsVisited + 1, raised := true)
    case Visited(restored, retries, rejections) =>
      Cycle(c.targetsVisited + 1, c.raised, c.restored || restored, c.retries + retries, c.rejections + rejections)
  }

  lemma CountedIs(c: Cycle, v: Visit)
    ensures Counted(c, v).targetsVisited == c.targetsVisited + 1
    ensures Counted(c, v).raised <==> c.raised || v.VisitRaised?
    ensures Counted(c, v).restored <==> c.restored || (v.Visited? && v.restored)
  {
  }

  function RetriesOf(step: Step): multiset<string> {
    match step
    case Fill(failure) => if failure.Some? then multiset{failure.value} else multiset{}
    case VisitOne(v) => if v.Visited? then v.retries else multiset{}
  }

  function RejectionsOf(step: Step): multiset<string> {
    if step.VisitOne? && step.v.Visited? then step.v.rejections else multiset{}
  }

  /** Everything that the moves report. */
  function AllReported(moves: seq<Move>, report: Step -> multiset<string>): multiset<string> {
    if moves == [] then multiset{}
    else AllReported(moves[..|moves| - 1], report) + report(moves[|moves| - 1].step)
  }

  predicate Raises(m: Move) { m.step == VisitOne(VisitRaised) }

  predicate Restores(m: Move) { m.step.VisitOne? && m.step.v.Visited? && m.step.v.restored }

  ghost predicate AnyRaises(moves: seq<Move>) { exists m :: m in moves && Raises(m) }

  ghost predicate AnyRestores(moves: seq<Move>) { exists m :: m in moves && Restores(m) }

  /** The moves of one cycle: a fill, then visits, and none behind one that raises. */
  ghost predicate CycleMoves(moves: seq<Move>) {
    && moves != [] && moves[0].step.Fill?
    && forall i :: 0 < i < |moves| ==> moves[i].step.VisitOne? && (i < |moves| - 1 ==> !Raises(moves[i]))
  }

  /** Unless it is cut short, a cycle visits as many keys as are queued after the fill, up to its limit. */
  ghost predicate CycleComplete(limits: Limits, moves: seq<Move>) {
    moves != [] &&
    (var queued := |moves[0].after.pending|;
     |moves| - 1 == if queued < limits.maxTargetsPerCycle then queued else limits.maxTargetsPerCycle)
  }

  /** The run has grown by the moves of a cycle with these totals. */
  ghost predicate CycleRuns(before: seq<Move>, history: seq<Move>, moves: seq<Move>, c: Cycle) {
    && history == before + moves && |moves| == 1 + c.targetsVisited && CycleMoves(moves)
    && (c.raised <==> AnyRaises(moves)) && (c.restored <==> AnyRestores(moves))
    && c.retries == AllReported(moves, RetriesOf) && c.rejections == AllReported(moves, RejectionsOf)
  }

  lemma CycleBegins(before: seq<Move>, history: seq<Move>, m: Move)
    requires m.step.Fill? && history == before + [m]
    ensures CycleRuns(before, history, [m], Cycle(0, false, false, RetriesOf(m.step), multiset{}))
  {
    ReportOne([], m, RetriesOf);
    ReportOne([], m, RejectionsOf);
    assert [] + [m] == [m];
  }

  lemma ReportOne(moves: seq<Move>, m: Move, report: Step -> multiset<string>)
    ensures AllReported(moves + [m], report) == AllReported(moves, report) + report(m.step)
  {
    assert (moves + [m])[..|moves|] == moves;
  }

  lemma CycleGrows(before: seq<Move>, history: seq<Move>, moves: seq<Move>, c: Cycle, m: Move)
    requires CycleRuns(before, history, moves, c) && m.step.VisitOne? && !c.raised
    ensures CycleRuns(before, history + [m], moves + [m], Counted(c, m.step.v))
    ensures moves != [] && (moves + [m])[0] == moves[0]
  {
    hide AllReported;
    assert m in moves + [m] && forall k :: k in moves ==> k in moves + [m];
    assert before + moves + [m] == before + (moves + [m]);
    ReportOne(moves, m, RetriesOf);
    ReportOne(moves, m, RejectionsOf);
  }

  lemma CycleEnds(before: seq<Move>, history: seq<Move>, moves: seq<Move>, c: Cycle)
    requires CycleRuns(before, history, moves, c)
    ensures before <= history && |moves| == 1 + c.targetsVisited
  {
  }

  /** How many cycles a run has begun. */
  function Fills(history: seq<Move>): nat {
    if history == [] then 0 else Fills(history[..|history| - 1]) + if history[|history| - 1].step.Fill? then 1 else 0
  }

  lemma {:induction false} FillsJoin(a: seq<Move>, b: seq<Move>)
    ensures Fills(a + b) == Fills(a) + Fills(b)
  {
    if b == [] {
      assert a + b == a;
    } else {
      FillsJoin(a, b[..|b| - 1]);
      assert (a + b)[..|a + b| - 1] == a + b[..|b| - 1];
    }
  }

  lemma {:induction false} NoFills(b: seq<Move>)
    requires forall i :: 0 <= i < |b| ==> !b[i].step.Fill?
    ensures Fills(b) == 0
  {
    if b != [] { NoFills(b[..|b| - 1]); }
  }

  /** A cycle begins with its only fill. */
  lemma OneFill(before: seq<Move>, moves: seq<Move>)
    requires CycleMoves(moves)
    ensures Fills(before + moves) == Fills(before) + 1
  {
    hide Fills;
    var visits := moves[1..];
    assert moves == [moves[0]] + visits;
    FillsJoin(before, moves);
    FillsJoin([moves[0]], visits);
    NoFills(visits);
    FillAlone(moves[0]);
  }

  lemma FillAlone(m: Move)
    requires m.step.Fill?
    ensures Fills([m]) == 1
  {
    assert [m][..0] == [];
  }
}
