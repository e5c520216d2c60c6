/** Which members of a target's buffer make up the next batch. */
module BacklinkAdmission {
  import opened Outcomes
  import opened BacklinkStores
  import opened BacklinkBuffers

  predicate Admissible(codec: Codec, limits: Limits, raw: Raw) {
    codec.parseMember(raw).Ok? && |raw| <= limits.maxAckBatchUrlBytes
  }

  /** The members of s that can be sent at all, in order. */
  function Sendable(codec: Codec, limits: Limits, s: seq<Raw>): seq<Raw> {
    if s == [] then []
    else
      Sendable(codec, limits, s[..|s| - 1])
      + if Admissible(codec, limits, s[|s| - 1]) then [s[|s| - 1]] else []
  }

  /** The reasons why the others cannot. */
  function Unsendable(codec: Codec, limits: Limits, s: seq<Raw>): multiset<string> {
    if s == [] then multiset{}
    else
      var raw := s[|s| - 1];
      Unsendable(codec, limits, s[..|s| - 1])
      + match codec.parseMember(raw)
        case Err(code) => multiset{code}
        case Ok(_) =>
          if |raw| > limits.maxAckBatchUrlBytes then multiset{"member_batch_byte_limit_exceeded"} else multiset{}
  }

  /** An oversized member is dropped only while the batch is still empty. */
  ghost predicate DropsOversized(codec: Codec, limits: Limits, buffer: seq<Raw>, consumed: nat)
    requires consumed <= |buffer|
  {
    forall i :: 0 <= i < consumed && codec.parseMember(buffer[i]).Ok? && !Admissible(codec, limits, buffer[i])
      ==> Sendable(codec, limits, buffer[..i]) == []
  }

  /** The first consumed members of the buffer were examined: the sendable ones form the batch, the
      others are dropped, and no more could have been examined. */
  ghost predicate IsAdmission(codec: Codec, limits: Limits, buffer: seq<Raw>, admitted: seq<Raw>, rest: seq<Raw>) {
    && |rest| <= |buffer|
    && var consumed := |buffer| - |rest|;
       && rest == buffer[consumed..]
       && admitted == Sendable(codec, limits, buffer[..consumed])
       && DropsOversized(codec, limits, buffer, consumed)
       && consumed <= limits.maxMembersPerTargetPerCycle
       && |admitted| <= limits.maxMembersPerAckBatch
       && SumLen(admitted) <= limits.maxAckBatchUrlBytes
       && (rest == [] || consumed == limits.maxMembersPerTargetPerCycle
           || (&& admitted != [] && codec.parseMember(rest[0]).Ok?
               && (|admitted| == limits.maxMembersPerAckBatch
                   || SumLen(admitted) + |rest[0]| > limits.maxAckBatchUrlBytes)))
  }

  lemma AdmitStart(codec: Codec, limits: Limits, buffer: seq<Raw>)
    ensures Sendable(codec, limits, buffer[..0]) == [] && DropsOversized(codec, limits, buffer, 0) && SumLen([]) == 0
    ensures Unsendable(codec, limits, buffer[..0]) == multiset{}
  {
  }

  lemma AdmitStep(codec: Codec, limits: Limits, buffer: seq<Raw>, i: nat)
    requires i < |buffer| && DropsOversized(codec, limits, buffer, i)
    ensures Sendable(codec, limits, buffer[..i + 1])
            == Sendable(codec, limits, buffer[..i]) + if Admissible(codec, limits, buffer[i]) then [buffer[i]] else []
    ensures (codec.parseMember(buffer[i]).Err? || Admissible(codec, limits, buffer[i])
             || Sendable(codec, limits, buffer[..i]) == []) ==> DropsOversized(codec, limits, buffer, i + 1)
    ensures Unsendable(codec, limits, buffer[..i + 1]) ==
              Unsendable(codec, limits, buffer[..i]) +
              if codec.parseMember(buffer[i]).Err? then multiset{codec.parseMember(buffer[i]).code}
              else if !Admissible(codec, limits, buffer[i]) then multiset{"member_batch_byte_limit_exceeded"}
              else multiset{}
    ensures SumLen([buffer[i]]) == |buffer[i]|
  {
    assert buffer[..i + 1][..i] == buffer[..i];
  }

  method AdmitMembers(codec: Codec, limits: Limits, buffer: seq<Raw>)
    returns (admitted: seq<Raw>, rest: seq<Raw>, rejections: multiset<string>)
    requires limits.Valid()
    ensures IsAdmission(codec, limits, buffer, admitted, rest)
    ensures rejections == Unsendable(codec, limits, buffer[..|buffer| - |rest|])
  {
    hide Sendable, Unsendable, DropsOversized, SumLen;
    AdmitStart(codec, limits, buffer);
    admitted, rest, rejections := [], buffer, multiset{};
    var examined, encodedBytes := 0, 0;
    while rest != [] && examined < limits.maxMembersPerTargetPerCycle
      invariant examined <= |buffer| && rest == buffer[examined..]
      invariant examined <= limits.maxMembersPerTargetPerCycle
      invariant admitted == Sendable(codec, limits, buffer[..examined])
      invariant DropsOversized(codec, limits, buffer, examined)
      invariant encodedBytes == SumLen(admitted) <= limits.maxAckBatchUrlBytes
      invariant |admitted| <= limits.maxMembersPerAckBatch
      invariant rejections == Unsendable(codec, limits, buffer[..examined])
      decreases |rest|
    {
      var raw := rest[0];
      AdmitStep(codec, limits, buffer, examined);
      var parsed := codec.parseMember(raw);
      if parsed.Err? {
        rejections := rejections + multiset{parsed.code};
      } else {
        var nextBytes := encodedBytes + |raw|;
        if |admitted| >= limits.maxMembersPerAckBatch || nextBytes > limits.maxAckBatchUrlBytes {
          if admitted != [] || nextBytes <= limits.maxAckBatchUrlBytes {
            break;
          }
          rejections := rejections + multiset{"member_batch_byte_limit_exceeded"};
        } else {
          SumLenConcat(admitted, [raw]);
          admitted, encodedBytes := admitted + [raw], nextBytes;
        }
      }
      examined, rest := examined + 1, rest[1..];
    }
  }

  /** A nonempty buffer always shrinks, what is sent or kept was in it, and restoring a batch that
      must be retried never makes it longer. */
  lemma AdmissionShrinks(codec: Codec, limits: Limits, buffer: seq<Raw>, admitted: seq<Raw>, rest: seq<Raw>)
    requires limits.Valid() && IsAdmission(codec, limits, buffer, admitted, rest)
    ensures buffer != [] ==> |rest| < |buffer|
    ensures |admitted + rest| <= |buffer| && SumLen(admitted + rest) <= SumLen(buffer)
    ensures SumLen(rest) <= SumLen(buffer)
    ensures forall m :: m in admitted ==> m in buffer && codec.parseMember(m).Ok?
    ensures forall m :: m in rest ==> m in buffer
  {
    var consumed := buffer[..|buffer| - |rest|];
    assert buffer == consumed + rest;
    SumLenConcat(consumed, rest);
    SumLenConcat(admitted, rest);
    SendableBound(codec, limits, consumed);
  }

  /** The contract of admission leaves no choice. */
  lemma AdmissionUnique(codec: Codec, limits: Limits, buffer: seq<Raw>,
                        admitted: seq<Raw>, rest: seq<Raw>, admitted': seq<Raw>, rest': seq<Raw>)
    requires IsAdmission(codec, limits, buffer, admitted, rest)
    requires IsAdmission(codec, limits, buffer, admitted', rest')
    ensures admitted == admitted' && rest == rest'
  {
    if |rest'| < |rest| {
      AdmissionStops(codec, limits, buffer, admitted, rest, admitted', rest');
    } else if |rest| < |rest'| {
      AdmissionStops(codec, limits, buffer, admitted', rest', admitted, rest);
    }
  }

  lemma AdmissionStops(codec: Codec, limits: Limits, buffer: seq<Raw>,
                       admitted: seq<Raw>, rest: seq<Raw>, admitted': seq<Raw>, rest': seq<Raw>)
    requires IsAdmission(codec, limits, buffer, admitted, rest)
    requires IsAdmission(codec, limits, buffer, admitted', rest')
    ensures |rest| <= |rest'|
  {
    if |rest'| < |rest| {
      var c, c' := |buffer| - |rest|, |buffer| - |rest'|;
      assert rest[0] == buffer[c];
      assert buffer[..c + 1][..c] == buffer[..c];
      SumLenConcat(admitted, [buffer[c]]);
      SendablePrefix(codec, limits, buffer, c + 1, c');
      assert false;
    }
  }

  lemma {:induction false} SendablePrefix(codec: Codec, limits: Limits, s: seq<Raw>, i: nat, j: nat)
    requires i <= j <= |s|
    ensures Sendable(codec, limits, s[..i]) <= Sendable(codec, limits, s[..j])
    ensures SumLen(Sendable(codec, limits, s[..i])) <= SumLen(Sendable(codec, limits, s[..j]))
    decreases j
  {
    if i < j {
      assert s[..j][..j - 1] == s[..j - 1];
      SendablePrefix(codec, limits, s, i, j - 1);
      SumLenConcat(Sendable(codec, limits, s[..j - 1]), if Admissible(codec, limits, s[j - 1]) then [s[j - 1]] else []);
    }
  }

  lemma {:induction false} SendableBound(codec: Codec, limits: Limits, s: seq<Raw>)
    ensures |Sendable(codec, limits, s)| <= |s| && SumLen(Sendable(codec, limits, s)) <= SumLen(s)
    ensures forall m :: m in Sendable(codec, limits, s) ==> m in s && codec.parseMember(m).Ok?
  {
    if s != [] {
      var front, last := s[..|s| - 1], s[|s| - 1];
      SendableBound(codec, limits, front);
      assert s == front + [last];
      SumLenConcat(front, [last]);
      SumLenConcat(Sendable(codec, limits, front), if Admissible(codec, limits, last) then [last] else []);
    }
  }
}
