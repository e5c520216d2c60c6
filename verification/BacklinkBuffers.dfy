/** The values the backlinks processor keeps: limits, the round-robin queue, and per-target buffers. */
module BacklinkBuffers {
  import opened BacklinkStores

  const MAX_CANONICAL_URL_BYTES: nat := 2048

  datatype Limits = Limits(
    maxScanCallsPerCycle: nat,
    maxTargetsPerCycle: nat,
    maxPendingTargetKeys: nat,
    maxScanResponseItems: nat,
    maxPendingMemberBytes: nat,
    maxMembersPerTargetPerCycle: nat,
    maxMembersPerAckBatch: nat,
    maxAckBatchUrlBytes: nat)
  {
    /** The checks made when the limits are constructed. */
    predicate Valid() {
      && maxScanCallsPerCycle > 0 && maxTargetsPerCycle > 0 && maxPendingTargetKeys > 0
      && maxScanResponseItems > 0 && maxPendingMemberBytes > 0 && maxMembersPerTargetPerCycle > 0
      && maxMembersPerAckBatch > 0 && maxAckBatchUrlBytes > 0
      && maxPendingTargetKeys >= maxTargetsPerCycle
      && maxPendingTargetKeys >= maxScanResponseItems
      && maxPendingMemberBytes >= ScanByteLimit()
    }

    function ScanByteLimit(): (bytes: nat)
      ensures bytes == maxScanResponseItems * 2048
    {
      maxScanResponseItems * MAX_CANONICAL_URL_BYTES
    }
  }

  /** TargetScanState. */
  datatype Target = Target(cursor: nat, complete: bool, buffer: seq<Raw>)

  const NEW_TARGET := Target(0, false, [])

  function SumLen(s: seq<Raw>): nat {
    if s == [] then 0 else |s[0]| + SumLen(s[1..])
  }

  lemma {:induction false} SumLenConcat(a: seq<Raw>, b: seq<Raw>)
    ensures SumLen(a + b) == SumLen(a) + SumLen(b)
  {
    if a == [] {
      assert a + b == b;
    } else {
      assert (a + b)[0] == a[0] && (a + b)[1..] == a[1..] + b;
      SumLenConcat(a[1..], b);
    }
  }

  //////////////////////////////////////////////////////////////////////////////
  // Sums over the target table
  //////////////////////////////////////////////////////////////////////////////

  type Targets = map<Raw, Target>

  function BufferBytes(t: Target): nat {
    SumLen(t.buffer)
  }

  function BufferCount(t: Target): nat {
    |t.buffer|
  }

  ghost function Total(m: Targets, weight: Target -> nat): nat
    decreases |m|
  {
    if m == map[] then 0
    else
      var k :| k in m;
      weight(m[k]) + Total(m - {k}, weight)
  }

  lemma {:induction false} TotalRemove(m: Targets, weight: Target -> nat, k: Raw)
    requires k in m
    ensures Total(m, weight) == weight(m[k]) + Total(m - {k}, weight)
    decreases |m|
  {
    var k' :| k' in m && Total(m, weight) == weight(m[k']) + Total(m - {k'}, weight);
    if k' != k {
      TotalRemove(m - {k'}, weight, k);
      TotalRemove(m - {k}, weight, k');
      assert m - {k'} - {k} == m - {k} - {k'};
    }
  }

  /** Replacing or adding one entry changes the sum by that entry alone. */
  lemma TotalSet(m: Targets, weight: Target -> nat, k: Raw, v: Target)
    ensures Total(m[k := v], weight) == Total(m - {k}, weight) + weight(v)
  {
    TotalRemove(m[k := v], weight, k);
    assert m[k := v] - {k} == m - {k};
  }

  lemma TotalAbsent(m: Targets, k: Raw)
    requires k !in m
    ensures m - {k} == m
  {
  }

  /** A positive sum has a positive entry. */
  lemma TotalPositive(m: Targets, weight: Target -> nat) returns (k: Raw)
    requires Total(m, weight) > 0
    ensures k in m && weight(m[k]) > 0
    decreases |m|
  {
    k :| k in m && Total(m, weight) == weight(m[k]) + Total(m - {k}, weight);
    if weight(m[k]) == 0 {
      k := TotalPositive(m - {k}, weight);
    }
  }

  lemma TotalEntry(m: Targets, weight: Target -> nat, k: Raw)
    requires k in m
    ensures weight(m[k]) <= Total(m, weight)
  {
    TotalRemove(m, weight, k);
  }

  //////////////////////////////////////////////////////////////////////////////
  // The queue of target keys
  //////////////////////////////////////////////////////////////////////////////

  predicate Distinct(s: seq<Raw>) {
    forall i, j :: 0 <= i < j < |s| ==> s[i] != s[j]
  }

  /** queued_keys mirrors a duplicate-free pending_keys. */
  ghost predicate QueueOk(pending: seq<Raw>, queued: set<Raw>) {
    Distinct(pending) && forall k :: k in queued <==> k in pending
  }

  lemma QueuePop(pending: seq<Raw>, queued: set<Raw>)
    requires QueueOk(pending, queued) && pending != []
    ensures QueueOk(pending[1..], queued - {pending[0]})
    ensures pending[0] in queued && pending[0] !in pending[1..]
  {
    assert pending == [pending[0]] + pending[1..];
  }

  lemma QueuePush(pending: seq<Raw>, queued: set<Raw>, k: Raw)
    requires QueueOk(pending, queued) && k !in queued
    ensures QueueOk(pending + [k], queued + {k})
  {
  }

  /** The targets with buffered members. */
  ghost function Buffered(targets: Targets): set<Raw> {
    set k | k in targets && targets[k].buffer != []
  }

  lemma BufferedCount(targets: Targets)
    ensures Buffered(targets) == {} <==> Total(targets, BufferCount) == 0
    ensures Total(targets, BufferBytes) > 0 ==> Buffered(targets) != {}
  {
    if Total(targets, BufferCount) > 0 {
      var k := TotalPositive(targets, BufferCount);
      assert k in Buffered(targets);
    }
    if k :| k in Buffered(targets) {
      TotalEntry(targets, BufferCount, k);
    }
    if Total(targets, BufferBytes) > 0 {
      var k := TotalPositive(targets, BufferBytes);
      assert k in Buffered(targets);
    }
  }

  /** How many queue positions come before the first key in keys (all of them if there is none). */
  ghost function Before(pending: seq<Raw>, keys: set<Raw>): (n: nat)
    ensures n <= |pending|
  {
    if pending == [] || pending[0] in keys then 0 else 1 + Before(pending[1..], keys)
  }

  lemma {:induction false} BeforeAppend(pending: seq<Raw>, keys: set<Raw>, more: seq<Raw>)
    requires exists k :: k in pending && k in keys
    ensures Before(pending + more, keys) == Before(pending, keys)
  {
    assert (pending + more)[0] == pending[0];
    if pending[0] !in keys {
      assert (pending + more)[1..] == pending[1..] + more;
      BeforeAppend(pending[1..], keys, more);
    }
  }
}
