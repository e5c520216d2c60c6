/** The request transcript of one crawl output: a scan with running values, and what it accepts. */
module Transcript {
  import opened Outcomes
  import opened Texts

  const MAX_REQUEST_STARTS: nat := 10
  const MAX_REQUEST_ORDINAL: nat := 100

  datatype Kind = Document | Robots | Redirect | RenderResource | OtherKind

  /** Counters are decimal text, as in the source. */
  datatype Request = Request(kind: Kind, target: string, startedAt: int, starts: string, ordinal: string)

  /** known: the names of the targets; usable: the targets that validate and have a request origin. */
  datatype Context = Context(baseline: string, generation: string, requests: seq<Request>, source: string,
                             known: set<string>, usable: set<string>)

  datatype Accepted = Accepted(documents: seq<Request>, lastTime: int)

  //////////////////////////////////////////////////////////////////////////////
  // Canonical decimals
  //////////////////////////////////////////////////////////////////////////////

  function TranscriptDecimal(s: string, maximum: nat, positive: bool): (r: Result<nat>)
    ensures r.Ok? ==> r.value <= maximum && (positive ==> r.value > 0)
  {
    match CanonicalDecimal(s)
    case None => Err("TRANSCRIPT_BINDING_MISMATCH")
    case Some(n) => if n > maximum || (positive && n == 0) then Err("TRANSCRIPT_BINDING_MISMATCH") else Ok(n)
  }

  //////////////////////////////////////////////////////////////////////////////
  // The scan
  //////////////////////////////////////////////////////////////////////////////

  /** The transcript's decimals are the decimal texts of the numbers in range. */
  lemma TranscriptDecimalIs(s: string, maximum: nat, positive: bool, n: nat)
    ensures TranscriptDecimal(s, maximum, positive) == Ok(n) <==>
              s == Decimal(n) && n <= maximum && (positive ==> n >= 1)
  {
    CanonicalDecimalIs(s, n);
  }

  datatype Progress = Progress(count: nat, ordinal: nat, time: int, hasDocument: bool, initialRobots: nat,
                               documents: seq<Request>)

  function Step(c: Context, p: Progress, r: Request): Result<Progress> {
    var count := TranscriptDecimal(r.starts, MAX_REQUEST_STARTS, true);
    var ordinal := TranscriptDecimal(r.ordinal, MAX_REQUEST_ORDINAL, true);
    if count.Err? || ordinal.Err? then Err("TRANSCRIPT_BINDING_MISMATCH")
    else if !(1 <= r.startedAt <= MAX_EXACT_INTEGER) then Err("INVALID_UNSIGNED_DECIMAL")
    else if count.value != p.count + 1 || ordinal.value <= p.ordinal || ordinal.value < count.value
            || r.startedAt < p.time then Err("TRANSCRIPT_BINDING_MISMATCH")
    else if r.target !in c.known then Err("OUTPUT_CONTEXT_MISMATCH")
    else if r.target !in c.usable then Err("TARGET_REJECTED")
    else
      var q := p.(count := count.value, ordinal := ordinal.value, time := r.startedAt);
      match r.kind
      case Document =>
        if p.hasDocument || r.target != c.source then Err("OUTPUT_CONTEXT_MISMATCH")
        else Ok(q.(hasDocument := true, documents := p.documents + [r]))
      case Robots =>
        if !p.hasDocument && p.initialRobots + 1 > 1 then Err("OUTPUT_CONTEXT_MISMATCH")
        else Ok(if p.hasDocument then q else q.(initialRobots := p.initialRobots + 1))
      case Redirect =>
        if !p.hasDocument then Err("OUTPUT_CONTEXT_MISMATCH") else Ok(q.(documents := p.documents + [r]))
      case RenderResource =>
        if !p.hasDocument then Err("OUTPUT_CONTEXT_MISMATCH") else Ok(q)
      case OtherKind => Err("OUTPUT_CONTEXT_MISMATCH")
  }

  function RunUpTo(c: Context, baseline: nat, n: nat): Result<Progress>
    requires n <= |c.requests|
  {
    if n == 0 then Ok(Progress(baseline, 0, 0, false, 0, []))
    else
      match RunUpTo(c, baseline, n - 1)
      case Err(code) => Err(code)
      case Ok(p) => Step(c, p, c.requests[n - 1])
  }

  /** request_start_interval */
  function Interval(c: Context): Result<(nat, nat)> {
    var baseline := TranscriptDecimal(c.baseline, MAX_REQUEST_STARTS, false);
    var generation := TranscriptDecimal(c.generation, MAX_REQUEST_STARTS, true);
    if baseline.Err? || generation.Err? || baseline.value >= generation.value then Err("TRANSCRIPT_BINDING_MISMATCH")
    else Ok((baseline.value, generation.value))
  }

  function Check(c: Context): Result<Accepted> {
    match Interval(c)
    case Err(code) => Err(code)
    case Ok((baseline, generation)) =>
      if c.requests == [] || |c.requests| != generation - baseline then Err("TRANSCRIPT_BINDING_MISMATCH")
      else
        match RunUpTo(c, baseline, |c.requests|)
        case Err(code) => Err(code)
        case Ok(p) =>
          if p.documents == [] || p.count != generation then Err("TRANSCRIPT_BINDING_MISMATCH")
          else Ok(Accepted(p.documents, p.time))
  }

  method OutputTranscript(c: Context) returns (r: Result<Accepted>)
    ensures r == Check(c)
  {
    hide Interval, Step, RunUpTo, TranscriptDecimal;
    IntervalBound(c);
    var interval := Interval(c);
    if interval.Err? {
      return Err(interval.code);
    }
    var (baseline, generation) := interval.value;
    if c.requests == [] || |c.requests| != generation - baseline {
      return Err("TRANSCRIPT_BINDING_MISMATCH");
    }
    RunStarts(c, baseline);
    var p := Progress(baseline, 0, 0, false, 0, []);
    for n := 0 to |c.requests|
      invariant RunUpTo(c, baseline, n) == Ok(p)
    {
      var next := Step(c, p, c.requests[n]);
      RunContinues(c, baseline, n);
      if next.Err? {
        ErrorPersists(c, baseline, n + 1, |c.requests|);
        return Err(next.code);
      }
      p := next.value;
    }
    if p.documents == [] || p.count != generation {
      return Err("TRANSCRIPT_BINDING_MISMATCH");
    }
    return Ok(Accepted(p.documents, p.time));
  }

  lemma RunStarts(c: Context, baseline: nat)
    ensures RunUpTo(c, baseline, 0) == Ok(Progress(baseline, 0, 0, false, 0, []))
  {
  }

  lemma RunContinues(c: Context, baseline: nat, n: nat)
    requires n < |c.requests| && RunUpTo(c, baseline, n).Ok?
    ensures RunUpTo(c, baseline, n + 1) == Step(c, RunUpTo(c, baseline, n).value, c.requests[n])
  {
    hide Step;
  }

  lemma {:induction false} ErrorPersists(c: Context, baseline: nat, n: nat, m: nat)
    requires n <= m <= |c.requests| && RunUpTo(c, baseline, n).Err?
    ensures RunUpTo(c, baseline, m) == RunUpTo(c, baseline, n)
    decreases m
  {
    if n < m {
      ErrorPersists(c, baseline, n, m - 1);
    }
  }

  //////////////////////////////////////////////////////////////////////////////
  // What the scan accepts, said without a scan
  //////////////////////////////////////////////////////////////////////////////

  function Starts(r: Request): Result<nat> {
    TranscriptDecimal(r.starts, 10, true)
  }

  function Ordinal(r: Request): Result<nat> {
    TranscriptDecimal(r.ordinal, 100, true)
  }

  /** Consecutive start counts, growing ordinals no smaller than their counts, times that never fall. */
  ghost predicate Counted(c: Context, baseline: nat, r: seq<Request>) {
    && (forall i :: 0 <= i < |r| ==>
          && Starts(r[i]) == Ok(baseline + i + 1)
          && Ordinal(r[i]).Ok? && Ordinal(r[i]).value >= baseline + i + 1
          && 1 <= r[i].startedAt <= MAX_EXACT_INTEGER
          && r[i].target in c.known && r[i].target in c.usable)
    && (forall i, j :: 0 <= i < j < |r| ==>
          Ordinal(r[i]).value < Ordinal(r[j]).value && r[i].startedAt <= r[j].startedAt)
  }

  /** Position of the document request, or the length. */
  function DocumentAt(r: seq<Request>): (d: nat)
    ensures d <= |r| && (d < |r| ==> r[d].kind.Document?)
    ensures forall i :: 0 <= i < d ==> !r[i].kind.Document?
  {
    if r == [] || r[0].kind.Document? then 0 else 1 + DocumentAt(r[1..])
  }

  /** At most one robots request, then the document at the source target, then no further document. */
  ghost predicate Shaped(c: Context, r: seq<Request>) {
    var d := DocumentAt(r);
    && d <= 1
    && (forall i :: 0 <= i < d ==> r[i].kind.Robots?)
    && (d < |r| ==> r[d].target == c.source)
    && (forall i :: d < i < |r| ==> r[i].kind in {Robots, Redirect, RenderResource})
  }

  /** The document and the redirects, in order. */
  function DocumentsOf(r: seq<Request>): seq<Request> {
    if r == [] then []
    else
      DocumentsOf(r[..|r| - 1])
      + if r[|r| - 1].kind in {Document, Redirect} then [r[|r| - 1]] else []
  }

  ghost predicate IsTranscript(c: Context) {
    var baseline := TranscriptDecimal(c.baseline, 10, false);
    var generation := TranscriptDecimal(c.generation, 10, true);
    && baseline.Ok? && generation.Ok? && baseline.value < generation.value
    && |c.requests| == generation.value - baseline.value
    && Counted(c, baseline.value, c.requests)
    && Shaped(c, c.requests) && DocumentAt(c.requests) < |c.requests|
  }

  lemma {:induction false} DocumentAtSnoc(r: seq<Request>, x: Request)
    ensures DocumentAt(r + [x]) == if DocumentAt(r) < |r| then DocumentAt(r)
                                   else if x.kind.Document? then |r| else |r| + 1
  {
    if r == [] {
      assert [x][1..] == [] && [] + [x] == [x];
    } else {
      assert (r + [x])[0] == r[0] && (r + [x])[1..] == r[1..] + [x];
      DocumentAtSnoc(r[1..], x);
    }
  }

  /** The running values of the scan describe the prefix read so far. */
  ghost predicate Describes(c: Context, baseline: nat, r: seq<Request>, p: Progress) {
    && p.count == baseline + |r|
    && (if r == [] then p.ordinal == 0 && p.time == 0
        else Ordinal(r[|r| - 1]) == Ok(p.ordinal) && p.time == r[|r| - 1].startedAt)
    && (p.hasDocument <==> DocumentAt(r) < |r|)
    && (p.initialRobots == if DocumentAt(r) < |r| then DocumentAt(r) else |r|)
    && p.documents == DocumentsOf(r)
    && (p.documents == [] <==> !p.hasDocument)
  }

  lemma StepCounted(c: Context, baseline: nat, r: seq<Request>, p: Progress, x: Request)
    requires Counted(c, baseline, r) && Describes(c, baseline, r, p)
    ensures Counted(c, baseline, r + [x]) <==>
              && Starts(x) == Ok(p.count + 1) && Ordinal(x).Ok? && Ordinal(x).value >= p.count + 1
              && Ordinal(x).value > p.ordinal && 1 <= x.startedAt <= MAX_EXACT_INTEGER && x.startedAt >= p.time
              && x.target in c.known && x.target in c.usable
  {
    hide TranscriptDecimal, DocumentAt, DocumentsOf;
    var r' := r + [x];
    var n := |r|;
    assert r'[n] == x;
    if Counted(c, baseline, r') && n > 0 {
      assert r'[n - 1] == r[n - 1];
      assert Ordinal(r'[n - 1]).value < Ordinal(r'[n]).value;
    }
  }

  lemma StepShaped(c: Context, baseline: nat, r: seq<Request>, p: Progress, x: Request)
    requires Shaped(c, r) && Describes(c, baseline, r, p)
    ensures Shaped(c, r + [x]) <==>
              match x.kind
              case Document => !p.hasDocument && x.target == c.source
              case Robots => p.hasDocument || p.initialRobots == 0
              case Redirect => p.hasDocument
              case RenderResource => p.hasDocument
              case OtherKind => false
  {
    hide TranscriptDecimal, DocumentsOf, DocumentAt;
    DocumentAtSnoc(r, x);
    var r' := r + [x];
    assert r'[|r|] == x && forall i :: 0 <= i < |r| ==> r'[i] == r[i];
  }

  lemma {:induction false} ShapedPrefix(c: Context, baseline: nat, r: seq<Request>, x: Request)
    requires Counted(c, baseline, r + [x]) && Shaped(c, r + [x])
    ensures Counted(c, baseline, r) && Shaped(c, r)
  {
    hide TranscriptDecimal, DocumentAt;
    DocumentAtSnoc(r, x);
    var r' := r + [x];
    assert forall i :: 0 <= i < |r| ==> r'[i] == r[i];
  }

  lemma {:induction false} RunAccepts(c: Context, baseline: nat, n: nat)
    requires n <= |c.requests|
    ensures RunUpTo(c, baseline, n).Ok? <==> Counted(c, baseline, c.requests[..n]) && Shaped(c, c.requests[..n])
    ensures RunUpTo(c, baseline, n).Ok? ==> Describes(c, baseline, c.requests[..n], RunUpTo(c, baseline, n).value)
  {
    hide TranscriptDecimal, Counted, Shaped, DocumentAt, DocumentsOf;
    if n == 0 {
      EmptyPrefix(c, baseline);
      assert c.requests[..0] == [];
    } else {
      var r, x := c.requests[..n - 1], c.requests[n - 1];
      assert c.requests[..n] == r + [x];
      RunAccepts(c, baseline, n - 1);
      if RunUpTo(c, baseline, n - 1).Ok? {
        var p := RunUpTo(c, baseline, n - 1).value;
        StepCounted(c, baseline, r, p, x);
        StepShaped(c, baseline, r, p, x);
        if Step(c, p, x).Ok? {
          StepDescribes(c, baseline, r, p, x);
        }
      } else if Counted(c, baseline, r + [x]) && Shaped(c, r + [x]) {
        ShapedPrefix(c, baseline, r, x);
      }
    }
  }

  lemma EmptyPrefix(c: Context, baseline: nat)
    ensures Counted(c, baseline, []) && Shaped(c, [])
    ensures Describes(c, baseline, [], Progress(baseline, 0, 0, false, 0, []))
  {
  }

  lemma StepDescribes(c: Context, baseline: nat, r: seq<Request>, p: Progress, x: Request)
    requires Describes(c, baseline, r, p) && Step(c, p, x).Ok?
    ensures Describes(c, baseline, r + [x], Step(c, p, x).value)
  {
    hide TranscriptDecimal, DocumentAt;
    DocumentAtSnoc(r, x);
    assert (r + [x])[..|r|] == r;
  }

  /** A transcript is accepted exactly when it is well counted and well shaped, and the result lists
      the document and the redirects in order. */
  lemma AcceptsExactlyTranscripts(c: Context)
    ensures Check(c).Ok? <==> IsTranscript(c)
    ensures Check(c).Ok? ==>
              && Check(c).value.documents == DocumentsOf(c.requests)
              && Check(c).value.lastTime == c.requests[|c.requests| - 1].startedAt
  {
    hide TranscriptDecimal, Counted, Shaped, DocumentAt, DocumentsOf;
    var baseline := TranscriptDecimal(c.baseline, MAX_REQUEST_STARTS, false);
    var generation := TranscriptDecimal(c.generation, MAX_REQUEST_STARTS, true);
    if baseline.Ok? && generation.Ok? {
      RunAccepts(c, baseline.value, |c.requests|);
      assert c.requests[..|c.requests|] == c.requests;
    }
  }

  lemma {:induction false} DocumentsAmong(r: seq<Request>)
    ensures |DocumentsOf(r)| <= |r| && forall d :: d in DocumentsOf(r) ==> d in r && d.kind in {Document, Redirect}
  {
    if r != [] {
      DocumentsAmong(r[..|r| - 1]);
    }
  }

  /** The documents of an accepted transcript are at least one and at most ten of its requests, at usable targets. */
  lemma DocumentsKnown(c: Context)
    requires Check(c).Ok?
    ensures var documents := Check(c).value.documents;
      && 1 <= |documents| <= MAX_REQUEST_STARTS
      && forall d :: d in documents ==>
           d in c.requests && d.target in c.known && d.target in c.usable && 1 <= d.startedAt <= MAX_EXACT_INTEGER
  {
    hide TranscriptDecimal, Shaped, DocumentAt, DocumentsOf, RunUpTo;
    AcceptsExactlyTranscripts(c);
    DocumentsAmong(c.requests);
    IntervalBound(c);
  }

  lemma IntervalBound(c: Context)
    ensures Interval(c).Ok? ==> Interval(c).value.0 < Interval(c).value.1 <= MAX_REQUEST_STARTS
  {
    hide TranscriptDecimal;
  }

  /** Of all rearrangements of an accepted transcript's requests, with any of them deleted or repeated,
      only the transcript itself is accepted. */
  lemma NoRearrangement(c: Context, requests: seq<Request>)
    requires Check(c).Ok? && Check(c.(requests := requests)).Ok?
    requires forall r :: r in requests ==> r in c.requests
    ensures requests == c.requests
  {
    hide TranscriptDecimal;
    var c' := c.(requests := requests);
    AcceptsExactlyTranscripts(c);
    AcceptsExactlyTranscripts(c');
    forall i | 0 <= i < |requests| ensures requests[i] == c.requests[i] {
      assert requests[i] in c.requests;
      var m :| 0 <= m < |c.requests| && c.requests[m] == requests[i];
      assert Starts(c.requests[m]) == Starts(requests[i]);
    }
  }
}
