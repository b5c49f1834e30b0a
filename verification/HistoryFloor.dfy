/** The history-floor probe (internal/chain/history.go): a search over an execution
    client that may fail transiently at any call, for the oldest block whose logs it
    still serves. */
module HistoryFloor {
  import opened Bytes

  /** LogsErrorKind. */
  datatype Kind = Unknown | HistoryUnavailable | Transient

  /** One eth_getLogs reply for a single block, classified. `cause` names the error. */
  datatype Reply = Logs(count: nat) | Failed(kind: Kind, cause: nat)
  {
    predicate Noise() { Failed? && kind == Transient }
  }

  /** Call number and block to reply: the node may answer each call as it likes. */
  type Node = (nat, nat) -> Reply

  /** A fixed answer per block, none of them transient. */
  type Verdict = nat -> Reply

  /** Every reply is either noise or the block's own verdict. */
  ghost predicate Honest(node: Node, v: Verdict)
  {
    && (forall n :: !v(n).Noise())
    && (forall i, n :: node(i, n).Noise() || node(i, n) == v(n))
  }

  datatype Anchor = NoAnchor | Anchor(block: nat, minLogs: int)

  datatype Err = NoErr | Err(cause: nat)

  /** HistoryProbe. The number of calls is the prober's own counter. */
  datatype Report = Report(
    floor: nat, boundary: Kind, boundaryErr: Err, nonMonotone: bool, anchorChecked: bool)

  datatype Outcome =
    | Found(report: Report)
    | HeadUnservable(kind: Kind, cause: nat)
    | AnchorRefused(kind: Kind, cause: nat)
    | EmptyHistory(got: nat)
    | Exhausted(block: nat)
    | Cancelled
  {
    /** The outcomes that say nothing about the node's history. */
    predicate Aborted() { Exhausted? || Cancelled? }
  }

  const SAMPLES: nat := 12  // monotonicitySamples
  const ROUNDS: nat := 8    // monotonicityRounds

  // ---------------------------------------------------------------- noiseless reading

  /** Where the bisection between a refused and a served block ends. */
  function Bisect(v: Verdict, lo: nat, hi: nat): nat
    decreases hi - lo
  {
    if hi <= lo + 1 then hi
    else
      var mid := lo + (hi - lo) / 2;
      if v(mid).Logs? then Bisect(v, lo, mid) else Bisect(v, mid, hi)
  }

  /** A bisection now between `lo` and `hi` will end at `end`. */
  ghost predicate OnCourse(v: Verdict, lo: nat, hi: nat, end: nat)
  {
    lo < hi && v(hi).Logs? && Bisect(v, lo, hi) == end
  }

  lemma StaysOnCourse(v: Verdict, lo: nat, mid: nat, hi: nat, end: nat)
    requires OnCourse(v, lo, hi, end) && hi - lo > 1 && mid == lo + (hi - lo) / 2
    ensures v(mid).Logs? ==> OnCourse(v, lo, mid, end)
    ensures !v(mid).Logs? ==> OnCourse(v, mid, hi, end)
  {}

  /** The blocks the audit looks at; the product is uint64 arithmetic. */
  function Sample(head: nat, i: nat): nat
  {
    head * i % TWO64 / (SAMPLES + 1)
  }

  function Samples(head: nat): seq<nat>
  {
    seq(SAMPLES, i requires 0 <= i => Sample(head, i + 1))
  }

  predicate Unavailable(v: Verdict, head: nat, n: nat)
  {
    0 < n < head && v(n).Failed? && v(n).kind == HistoryUnavailable
  }

  /** A sampled block inside (0, head) that the node refuses as unavailable. */
  predicate SampledRefusal(v: Verdict, head: nat, n: nat)
  {
    n in Samples(head) && Unavailable(v, head, n)
  }

  /** The highest unavailable block of a list, or 0. */
  function Highest(v: Verdict, head: nat, picks: seq<nat>): nat
  {
    if picks == [] then 0
    else
      var h, n := Highest(v, head, picks[..|picks| - 1]), picks[|picks| - 1];
      if Unavailable(v, head, n) && n > h then n else h
  }

  function FloorFrom(v: Verdict, head: nat, picks: seq<nat>): nat
  {
    if v(0).Failed? then Bisect(v, 0, head)
    else
      var bad := Highest(v, head, picks);
      if bad == 0 then 0 else Bisect(v, bad, head)
  }

  function QuietFloor(v: Verdict, head: nat): nat
  {
    FloorFrom(v, head, Samples(head))
  }

  function MinLogs(a: Anchor): nat
    requires a.Anchor?
  {
    if a.minLogs <= 0 then 1 else a.minLogs
  }

  predicate AnchorApplies(a: Anchor, floor: nat, head: nat)
  {
    a.Anchor? && floor <= a.block <= head
  }

  /** What a node that never fails transiently makes the probe say. */
  function Quiet(v: Verdict, head: nat, a: Anchor): Outcome
  {
    if v(head).Failed? then HeadUnservable(v(head).kind, v(head).cause)
    else
      var f := QuietFloor(v, head);
      var raised := v(0).Logs? && f > 0;
      var below := if f > 0 then v(f - 1) else v(0);
      var p := if below.Failed? then Report(f, below.kind, Err(below.cause), raised, AnchorApplies(a, f, head))
               else Report(f, Unknown, NoErr, raised, AnchorApplies(a, f, head));
      if AnchorApplies(a, f, head) then
        match v(a.block)
        case Failed(k, c) => AnchorRefused(k, c)
        case Logs(n) => if n < MinLogs(a) then EmptyHistory(n) else Found(p)
      else Found(p)
  }

  // ---------------------------------------------------------------- facts about the floor

  lemma {:induction false} BisectLands(v: Verdict, lo: nat, hi: nat)
    requires lo < hi && v(lo).Failed? && v(hi).Logs?
    ensures lo < Bisect(v, lo, hi) <= hi
    ensures v(Bisect(v, lo, hi)).Logs? && v(Bisect(v, lo, hi) - 1).Failed?
    decreases hi - lo
  {
    if hi > lo + 1 {
      var mid := lo + (hi - lo) / 2;
      if v(mid).Logs? { BisectLands(v, lo, mid); } else { BisectLands(v, mid, hi); }
    }
  }

  lemma {:induction false} HighestIsHighest(v: Verdict, head: nat, picks: seq<nat>)
    ensures var h := Highest(v, head, picks); h == 0 || (h in picks && Unavailable(v, head, h))
    ensures forall n: nat :: n in picks && Unavailable(v, head, n) ==> n <= Highest(v, head, picks)
  {
    if picks != [] {
      HighestIsHighest(v, head, picks[..|picks| - 1]);
      assert picks == picks[..|picks| - 1] + [picks[|picks| - 1]];
    }
  }

  lemma FloorLands(v: Verdict, head: nat, picks: seq<nat>)
    requires v(head).Logs?
    ensures var f := FloorFrom(v, head, picks);
      && f <= head && v(f).Logs? && (f > 0 ==> v(f - 1).Failed?)
      && (v(0).Logs? ==> forall n: nat :: n in picks && Unavailable(v, head, n) ==> n < f)
      && (f > 0 && v(0).Logs? ==> exists n: nat :: n in picks && Unavailable(v, head, n))
  {
    if v(0).Failed? {
      BisectLands(v, 0, head);
    } else {
      HighestIsHighest(v, head, picks);
      var bad := Highest(v, head, picks);
      if bad > 0 { BisectLands(v, bad, head); }
    }
  }

  /** The i-th of the twelve blocks the audit looks at is refused as history-unavailable. */
  predicate RefusedAt(v: Verdict, head: nat, i: nat)
  {
    var n := head * i % TWO64 / 13;
    1 <= i <= 12 && 0 < n < head && v(n).Failed? && v(n).kind == HistoryUnavailable
  }

  lemma RefusedIsSampled(v: Verdict, head: nat)
    ensures forall i: nat :: RefusedAt(v, head, i) ==> SampledRefusal(v, head, head * i % TWO64 / 13)
    ensures forall n: nat :: SampledRefusal(v, head, n) ==> exists i: nat :: RefusedAt(v, head, i)
  {
    forall i: nat | RefusedAt(v, head, i) ensures SampledRefusal(v, head, head * i % TWO64 / 13) {
      assert Samples(head)[i - 1] == head * i % TWO64 / 13;
    }
    forall n: nat | SampledRefusal(v, head, n) ensures exists i: nat :: RefusedAt(v, head, i) {
      var k :| 0 <= k < 12 && Samples(head)[k] == n;
      assert RefusedAt(v, head, k + 1);
    }
  }

  /** Floor theorem. A reported floor is served and the block below it is refused, the
      reported boundary is that block's own answer, and the audit raises the floor above
      every sampled block the node refused as unavailable. */
  lemma FloorIsABoundary(v: Verdict, head: nat, a: Anchor)
    requires Quiet(v, head, a).Found?
    ensures var p := Quiet(v, head, a).report;
      && p.floor <= head && v(p.floor).Logs?
      && (p.floor > 0 ==> p.boundaryErr.Err? && v(p.floor - 1) == Failed(p.boundary, p.boundaryErr.cause))
      && (p.floor == 0 ==> p.boundary == Unknown && p.boundaryErr == NoErr)
      && (p.nonMonotone <==> p.floor > 0 && v(0).Logs?)
      && (v(0).Logs? ==> forall i: nat :: RefusedAt(v, head, i) ==> head * i % TWO64 / 13 < p.floor)
      && (p.floor == 0 <==> v(0).Logs? && !exists i: nat :: RefusedAt(v, head, i))
      && (p.anchorChecked <==> a.Anchor? && p.floor <= a.block <= head)
      && p.floor == QuietFloor(v, head)
  {
    FloorLands(v, head, Samples(head));
    RefusedIsSampled(v, head);
    var f := QuietFloor(v, head);
    if f > 0 && v(0).Logs? {
      var n: nat :| n in Samples(head) && Unavailable(v, head, n);
      assert SampledRefusal(v, head, n);
    }
  }

  /** Outcome theorem: exactly when each outcome comes out, on the verdicts and the anchor's
      own fields, with the refusing block's own answer. */
  lemma OutcomeExactly(v: Verdict, head: nat, a: Anchor)
    ensures var out, asked := Quiet(v, head, a), a.Anchor? && QuietFloor(v, head) <= a.block <= head;
      && (out.HeadUnservable? <==> v(head).Failed?)
      && (out.Found? <==> v(head).Logs? && (asked ==>
            v(a.block).Logs? && v(a.block).count >= 1 && v(a.block).count >= a.minLogs))
      && (out.AnchorRefused? <==> v(head).Logs? && asked && v(a.block).Failed?)
      && (out.EmptyHistory? <==> v(head).Logs? && asked && v(a.block).Logs?
                                 && (v(a.block).count < 1 || v(a.block).count < a.minLogs))
      && (out.HeadUnservable? ==> v(head) == Failed(out.kind, out.cause))
      && (out.AnchorRefused? ==> v(a.block) == Failed(out.kind, out.cause))
      && (out.EmptyHistory? ==> v(a.block) == Logs(out.got))
      && !out.Aborted()
  {}

  ghost predicate UpwardClosed(v: Verdict, head: nat)
  {
    forall m: nat, n: nat :: m <= n <= head && v(m).Logs? ==> v(n).Logs?
  }

  /** On a node whose availability is monotone the floor is the least served block. */
  lemma MonotoneFloorIsLeast(v: Verdict, head: nat, a: Anchor)
    requires Quiet(v, head, a).Found? && UpwardClosed(v, head)
    ensures forall n: nat :: n <= head ==> (v(n).Logs? <==> n >= Quiet(v, head, a).report.floor)
    ensures !Quiet(v, head, a).report.nonMonotone
  {
    FloorIsABoundary(v, head, a);
    var f := Quiet(v, head, a).report.floor;
    if f > 0 { assert v(f - 1).Failed?; }
    forall n: nat | n <= head ensures v(n).Logs? <==> n >= f {
      if n < f { assert v(f - 1).Failed?; }
    }
  }

  /** While the products fit a uint64 the samples are spread evenly: no stretch wider
      than a thirteenth of the range lies between them. */
  lemma {:induction false} SamplesLeaveNoGap(head: nat, lo: nat, len: nat, i: nat) returns (j: nat)
    requires head * SAMPLES < TWO64 && lo + len <= head && len > head / (SAMPLES + 1)
    requires i <= SAMPLES && Sample(head, i) < lo
    ensures i < j <= SAMPLES && lo <= Sample(head, j) < lo + len
    decreases SAMPLES - i
  {
    SampleExact(head, i);
    if i < SAMPLES {
      SampleExact(head, i + 1);
      assert head * (i + 1) == head * i + head;
      j := i + 1;
      if Sample(head, j) < lo { j := SamplesLeaveNoGap(head, lo, len, j); }
    } else {
      assert false;
    }
  }

  lemma SampleExact(head: nat, i: nat)
    requires head * SAMPLES < TWO64 && i <= SAMPLES
    ensures Sample(head, i) == head * i / (SAMPLES + 1)
  {
    Scale(head, i, SAMPLES);
    Unwrapped(head * i);
  }

  lemma Unwrapped(x: nat)
    requires x < TWO64
    ensures x % TWO64 == x
  {}

  /** Every block of [lo, lo + len) is refused as history-unavailable. */
  ghost predicate Gap(v: Verdict, lo: nat, len: nat)
  {
    forall n: nat :: lo <= n < lo + len ==> v(n).Failed? && v(n).kind == HistoryUnavailable
  }

  /** So no gap that wide escapes the probe, wherever it lies: the reported floor is above
      all of it. */
  lemma WideGapIsFound(v: Verdict, head: nat, a: Anchor, lo: nat, len: nat)
    requires Quiet(v, head, a).Found? && head * 12 < TWO64
    requires v(0).Logs? && 0 < lo && lo + len <= head && len > head / 13 && Gap(v, lo, len)
    ensures Quiet(v, head, a).report.nonMonotone
    ensures Quiet(v, head, a).report.floor >= lo + len
  {
    FloorIsABoundary(v, head, a);
    var i, n := GapIsSampled(v, head, lo, len);
    var f := Quiet(v, head, a).report.floor;
    assert n < f;
    assert v(f).Logs?;
  }

  lemma GapIsSampled(v: Verdict, head: nat, lo: nat, len: nat) returns (i: nat, n: nat)
    requires head * 12 < TWO64 && 0 < lo && lo + len <= head && len > head / 13 && Gap(v, lo, len)
    ensures RefusedAt(v, head, i) && n == head * i % TWO64 / 13 && lo <= n
  {
    SampleExact(head, 0);
    i := SamplesLeaveNoGap(head, lo, len, 0);
    n := Sample(head, i);
  }

  // ---------------------------------------------------------------- cost

  function CeilLog2(n: nat): nat
  {
    if n <= 1 then 0 else 1 + CeilLog2((n + 1) / 2)
  }

  /** CeilLog2(n) is the least exponent whose power of two reaches n. */
  lemma {:induction false} CeilLog2Meaning(n: nat)
    requires n >= 1
    ensures n <= Pow2(CeilLog2(n))
    ensures n > 1 ==> Pow2(CeilLog2(n) - 1) < n
  {
    if n > 1 {
      var h := (n + 1) / 2;
      var k := CeilLog2(h);
      CeilLog2Meaning(h);
      assert CeilLog2(n) == k + 1 && Pow2(k + 1) == 2 * Pow2(k);
      if n > 2 { assert k > 0 && Pow2(k) == 2 * Pow2(k - 1); }
    }
  }

  lemma {:induction false} CeilLog2Monotone(m: nat, n: nat)
    requires m <= n
    ensures CeilLog2(m) <= CeilLog2(n)
  {
    if m > 1 { CeilLog2Monotone((m + 1) / 2, (n + 1) / 2); }
  }

  /** What the first search finds on an honest node. */
  ghost predicate FirstReading(v: Verdict, head: nat, floor: nat, boundary: Kind, err: Err)
  {
    && v(head).Logs?
    && floor == (if v(0).Failed? then Bisect(v, 0, head) else 0)
    && (v(0).Failed? ==> floor > 0 && Below(v, floor, boundary, err))
    && (v(0).Logs? ==> boundary == Unknown && err == NoErr)
  }

  /** ... and what is known once the audit is over. */
  ghost predicate Reading(v: Verdict, head: nat, floor: nat, boundary: Kind, err: Err, nonMonotone: bool)
  {
    && v(head).Logs? && floor == QuietFloor(v, head)
    && (nonMonotone <==> v(0).Logs? && floor > 0)
    && (floor > 0 ==> Below(v, floor, boundary, err))
    && (floor == 0 ==> v(0).Logs? && boundary == Unknown && err == NoErr)
  }

  /** The block below a floor is refused with that kind and cause. */
  predicate Below(v: Verdict, floor: nat, boundary: Kind, err: Err)
    requires floor > 0
  {
    v(floor - 1).Failed? && boundary == v(floor - 1).kind && err == Err(v(floor - 1).cause)
  }

  function QueryBound(head: nat): nat
  {
    15 + CeilLog2(if head == 0 then 1 else head)
  }

  // ---------------------------------------------------------------- the program

  /** RetryPolicy.withDefaults, for the field the search depends on. */
  function Attempts(configured: int): nat
  {
    if configured <= 0 then 5 else configured
  }

  datatype Answer = Served(count: nat) | Refused(kind: Kind, cause: nat) | Abort(why: Outcome)

  function AnswerOf(r: Reply): Answer
  {
    match r case Logs(n) => Served(n) case Failed(k, c) => Refused(k, c)
  }

  /** `count` consecutive calls about block `b`, from call `i` on, all fail transiently. */
  ghost predicate Drought(node: Node, b: nat, i: nat, count: nat)
  {
    forall j: nat :: i <= j < i + count ==> node(j, b).Noise()
  }

  class Prober {
    const node: Node
    const cancelled: nat -> bool  // what each successive look at the context finds
    const attempts: nat
    ghost const v: Verdict        // the verdicts an honest node has behind its noise

    var probes: nat               // eth_getLogs calls, retries included
    var looks: nat                // context checks
    ghost var queries: nat        // calls of Probe

    ghost predicate Within()
      reads this
    {
      attempts > 0 && probes <= attempts * queries && probes <= looks
    }

    /** No look at the context has found it cancelled. */
    ghost predicate Calm()
      reads this
    {
      forall i: nat :: i < looks ==> !cancelled(i)
    }

    /** An abort has a reason outside the search: a whole retry budget spent on noise for
        one block, or a context found cancelled just now for the first time. */
    ghost predicate Justified(why: Outcome)
      reads this
    {
      match why
      case Exhausted(b) => Calm() && exists i: nat :: i + attempts == probes && Drought(node, b, i, attempts)
      case Cancelled => looks > 0 && cancelled(looks - 1) && forall i: nat :: i < looks - 1 ==> !cancelled(i)
      case _ => false
    }

    /** How an answer leaves the prober. */
    ghost predicate Left(a: Answer)
      reads this
    {
      Within() && if a.Abort? then Justified(a.why) else Calm()
    }

    constructor (node: Node, cancelled: nat -> bool, configured: int, ghost v: Verdict)
      ensures this.node == node && this.cancelled == cancelled && this.v == v
      ensures configured > 0 ==> attempts == configured
      ensures configured <= 0 ==> attempts == 5
      ensures Within() && Calm() && probes == queries == looks == 0
    {
      this.node, this.cancelled, this.v := node, cancelled, v;
      attempts := Attempts(configured);
      probes, looks, queries := 0, 0, 0;
    }

    method ContextDone() returns (done: bool)
      requires Calm()
      modifies this`looks
      ensures looks == old(looks) + 1
      ensures if done then Justified(Cancelled) else Calm()
    {
      done := cancelled(looks);
      looks := looks + 1;
    }

    /** The probe closure: ask about one block until something definite comes back. */
    method Probe(n: nat) returns (a: Answer)
      requires Within() && Calm()
      modifies this
      ensures Left(a) && queries == old(queries) + 1 && looks > old(looks)
      ensures a.Refused? ==> a.kind != Transient
      ensures !a.Abort? ==> probes > old(probes) && a == AnswerOf(node(probes - 1, n))
      // A look before each call, after each call that failed, and during each wait.
      ensures a.Served? ==> looks == old(looks) + 3 * (probes - old(probes)) - 2
      ensures a.Refused? || (a.Abort? && a.why.Exhausted?) ==> looks == old(looks) + 3 * (probes - old(probes)) - 1
      ensures Honest(node, v) && !a.Abort? ==> a == AnswerOf(v(n))
    {
      queries := queries + 1;
      var attempt := 1;
      while true
        invariant 1 <= attempt <= attempts
        invariant probes == old(probes) + attempt - 1
        invariant queries == old(queries) + 1 && Calm() && probes <= looks == old(looks) + 3 * (attempt - 1)
        invariant forall i :: old(probes) <= i < probes ==> node(i, n).Noise()
        invariant attempts > 0 && old(probes) + attempts <= attempts * queries
        decreases attempts - attempt
      {
        var done := ContextDone();
        if done { return Abort(Cancelled); }
        var r := node(probes, n);
        probes := probes + 1;
        if r.Logs? { return Served(r.count); }
        done := ContextDone();
        if done { return Abort(Cancelled); }
        if r.kind != Transient { return Refused(r.kind, r.cause); }
        if attempt >= attempts {
          assert Drought(node, n, old(probes), attempts);
          return Abort(Exhausted(n));
        }
        done := ContextDone();  // the sleep before the next attempt
        if done { return Abort(Cancelled); }
        attempt := attempt + 1;
      }
    }

    /** Either bisection loop: `lo` is refused with (kind0, cause0), `hi` is served. */
    method Search(lo0: nat, hi0: nat, kind0: Kind, cause0: nat)
      returns (a: Answer, hi: nat, kind: Kind, cause: nat)
      requires Within() && Calm() && lo0 <= hi0
      requires Honest(node, v) ==> lo0 < hi0 && v(lo0) == Failed(kind0, cause0) && v(hi0).Logs?
      modifies this
      ensures Left(a) && old(queries) <= queries <= old(queries) + CeilLog2(hi0 - lo0)
      ensures lo0 <= hi <= hi0 && (lo0 < hi0 ==> lo0 < hi)
      ensures Honest(node, v) && !a.Abort? ==>
        hi == Bisect(v, lo0, hi0) && v(hi - 1) == Failed(kind, cause)
    {
      a, kind, cause := Served(0), kind0, cause0;
      var lo := lo0;
      hi := hi0;
      ghost var end := Bisect(v, lo0, hi0);
      while hi - lo > 1
        invariant !a.Abort? && Calm() && lo0 <= lo <= hi <= hi0 && (lo0 < hi0 ==> lo < hi)
        invariant Within() && old(queries) <= queries
        invariant queries + CeilLog2(hi - lo) <= old(queries) + CeilLog2(hi0 - lo0)
        invariant Honest(node, v) ==> v(lo) == Failed(kind, cause) && OnCourse(v, lo, hi, end)
        decreases hi - lo
      {
        var mid := lo + (hi - lo) / 2;
        if Honest(node, v) { StaysOnCourse(v, lo, mid, hi, end); }
        CeilLog2Monotone(mid - lo, (hi - lo + 1) / 2);
        CeilLog2Monotone(hi - mid, (hi - lo + 1) / 2);
        a := Probe(mid);
        if a.Abort? { return; }
        if a.Served? {
          hi := mid;
        } else {
          lo, kind, cause := mid, a.kind, a.cause;
        }
      }
    }

    /** One sample of it: the better of `n` and the best block so far. */
    method Look(head: nat, n: nat, best: nat, kind0: Kind, cause0: nat)
      returns (a: Answer, bad: nat, kind: Kind, cause: nat)
      requires Within() && Calm() && (best > 0 ==> best < head)
      requires Honest(node, v) && best > 0 ==> v(best) == Failed(kind0, cause0)
      modifies this
      ensures Left(a) && old(looks) <= looks
      ensures queries == old(queries) + (if 0 < n < head then 1 else 0)
      ensures bad > 0 ==> bad < head
      ensures Honest(node, v) && !a.Abort? ==>
        && bad == (if Unavailable(v, head, n) && n > best then n else best)
        && (bad > 0 ==> v(bad) == Failed(kind, cause))
    {
      a, bad, kind, cause := Served(0), best, kind0, cause0;
      if n <= 0 || n >= head { return; }
      a := Probe(n);
      if a.Refused? && a.kind == HistoryUnavailable && n > best {
        bad, kind, cause := n, a.kind, a.cause;
      }
    }

    /** highestUnservable over (0, head). */
    method HighestUnservable(head: nat) returns (a: Answer, bad: nat, kind: Kind, cause: nat)
      requires Within() && Calm() && head < TWO64
      modifies this
      ensures Left(a) && old(queries) <= queries <= old(queries) + SAMPLES
      ensures head <= 1 ==> queries == old(queries) && looks == old(looks)
      ensures head > 1 && !a.Abort? ==> looks >= old(looks) + SAMPLES
      ensures bad > 0 ==> bad < head
      ensures Honest(node, v) && !a.Abort? ==>
        bad == Highest(v, head, Samples(head)) && (bad > 0 ==> v(bad) == Failed(kind, cause))
    {
      a, bad, kind, cause := Served(0), 0, Unknown, 0;
      if head <= 1 {
        HighestIsHighest(v, head, Samples(head));
        return;
      }
      BestOfAll(v, head);
      var i := 1;
      while i <= SAMPLES
        invariant 1 <= i <= SAMPLES + 1
        invariant Within() && Calm() && old(queries) <= queries <= old(queries) + i - 1
        invariant looks >= old(looks) + i - 1
        invariant bad > 0 ==> bad < head
        invariant Honest(node, v) ==>
          bad == BestOf(v, head, i - 1) && (bad > 0 ==> v(bad) == Failed(kind, cause))
      {
        var done := ContextDone();
        if done { a := Abort(Cancelled); return; }
        HighestStep(v, head, i);
        a, bad, kind, cause := Look(head, Sample(head, i), bad, kind, cause);
        if a.Abort? { return; }
        i := i + 1;
      }
      a := Served(0);
    }

    /** The head and genesis probes and the first bisection. */
    method FirstFloor(head: nat) returns (a: Answer, floor: nat, boundary: Kind, err: Err)
      requires Within() && Calm()
      requires Honest(node, v) ==> v(head).Logs?
      modifies this
      ensures Left(a) && old(queries) <= queries
      ensures queries <= old(queries) + 1 + CeilLog2(head)
      ensures floor <= head
      ensures !a.Abort? && floor == 0 ==> queries <= old(queries) + 1
      ensures !a.Abort? && Honest(node, v) ==> FirstReading(v, head, floor, boundary, err)
    {
      floor, boundary, err := 0, Unknown, NoErr;
      a := Probe(0);
      if a.Refused? {
        var hi, kind, cause;
        a, hi, kind, cause := Search(0, head, a.kind, a.cause);
        floor, boundary, err := hi, kind, Err(cause);
      }
    }

    /** One pass of the audit: sample the range and bisect above what it refuses. */
    method AuditRound(head: nat) returns (a: Answer, floor: nat, boundary: Kind, err: Err)
      requires Within() && Calm() && head < TWO64
      requires Honest(node, v) ==> v(head).Logs?
      modifies this
      ensures Left(a) && old(queries) <= queries <= old(queries) + SAMPLES + CeilLog2(head)
      ensures floor <= head
      ensures !a.Abort? && Honest(node, v) ==>
        var bad := Highest(v, head, Samples(head));
        && (floor == 0 <==> bad == 0)
        && (bad > 0 ==> floor == Bisect(v, bad, head) && Below(v, floor, boundary, err))
    {
      floor, boundary, err := 0, Unknown, NoErr;
      var bad, kind, cause;
      a, bad, kind, cause := HighestUnservable(head);
      if a.Abort? || bad == 0 { return; }
      CeilLog2Monotone(head - bad, head);
      a, floor, kind, cause := Search(bad, head, kind, cause);
      boundary, err := kind, Err(cause);
    }

    /** The audit loop: only a claim of full history is looked into, and raised at most once. */
    method Audit(head: nat, floor0: nat, boundary0: Kind, err0: Err)
      returns (a: Answer, floor: nat, boundary: Kind, err: Err, nonMonotone: bool)
      requires Within() && Calm() && floor0 <= head < TWO64
      requires Honest(node, v) ==> FirstReading(v, head, floor0, boundary0, err0)
      modifies this
      ensures Left(a) && old(queries) <= queries
      ensures queries <= old(queries) + (if floor0 == 0 then SAMPLES + CeilLog2(head) else 0)
      ensures floor <= head
      ensures Honest(node, v) && !a.Abort? ==> Reading(v, head, floor, boundary, err, nonMonotone)
    {
      a, floor, boundary, err, nonMonotone := Served(0), floor0, boundary0, err0, false;
      var round := 0;
      while floor == 0 && round < ROUNDS
        invariant Within() && Calm() && floor <= head && !a.Abort?
        invariant floor == 0 ==> floor0 == 0 && round == 0 && queries == old(queries) && !nonMonotone
        invariant floor == 0 ==> boundary == boundary0 && err == err0
        invariant old(queries) <= queries <= old(queries) + (if floor0 == 0 then SAMPLES + CeilLog2(head) else 0)
        invariant Honest(node, v) && floor > 0 ==> Reading(v, head, floor, boundary, err, nonMonotone)
        decreases ROUNDS - round
      {
        var raised: nat, kind, cause;
        a, raised, kind, cause := AuditRound(head);
        if a.Abort? || raised == 0 { break; }
        floor, boundary, err, nonMonotone := raised, kind, cause, true;
        round := round + 1;
      }
    }

    /** The anchor cross-check and the verdict. */
    method CheckAnchor(head: nat, anchor: Anchor, floor: nat, boundary: Kind, err: Err, nonMonotone: bool)
      returns (out: Outcome)
      requires Within() && Calm() && floor <= head
      requires Honest(node, v) ==> Reading(v, head, floor, boundary, err, nonMonotone)
      modifies this
      ensures Within() && queries <= old(queries) + 1
      ensures Honest(node, v) ==> out.Aborted() || out == Quiet(v, head, anchor)
      ensures if out.Aborted() then Justified(out) else Calm()
    {
      var checks := AnchorApplies(anchor, floor, head);
      if checks {
        var a := Probe(anchor.block);
        if a.Abort? { return a.why; }
        if a.Refused? { return AnchorRefused(a.kind, a.cause); }
        if a.count < MinLogs(anchor) { return EmptyHistory(a.count); }
      }
      out := Found(Report(floor, boundary, err, nonMonotone, checks));
    }

    /** ProbeHistoryFloor. Against any node at all the cost is bounded, every call is
        preceded by a look at the context, and the probe stops at the first look that finds
        it cancelled; against an honest node the outcome is an abort or the noiseless
        outcome. */
    method ProbeHistoryFloor(head: nat, anchor: Anchor) returns (out: Outcome)
      requires Within() && Calm() && queries == 0 && head < TWO64
      modifies this
      ensures probes <= attempts * (15 + CeilLog2(if head == 0 then 1 else head))
      ensures probes <= looks && (out == Cancelled <==> exists i: nat :: i < looks && cancelled(i))
      ensures Honest(node, v) ==> out.Aborted() || out == Quiet(v, head, anchor)
      ensures out.Aborted() ==> Justified(out)
    {
      var a := Probe(head);
      Afford(head);
      if a.Abort? { return a.why; }
      if a.Refused? { return HeadUnservable(a.kind, a.cause); }
      var floor: nat, boundary, err;
      a, floor, boundary, err := FirstFloor(head);
      Afford(head);
      if a.Abort? { return a.why; }
      var nonMonotone;
      a, floor, boundary, err, nonMonotone := Audit(head, floor, boundary, err);
      Afford(head);
      if a.Abort? { return a.why; }
      out := CheckAnchor(head, anchor, floor, boundary, err, nonMonotone);
      Afford(head);
    }

    /** The bound on queries is a bound on calls. */
    lemma Afford(head: nat)
      requires Within() && queries <= QueryBound(head)
      ensures probes <= attempts * QueryBound(head)
    {
      Scale(attempts, queries, QueryBound(head));
    }
  }

  lemma Scale(a: nat, m: nat, n: nat)
    requires m <= n
    ensures a * m <= a * n
  {}

  /** The best of the first i samples. */
  ghost function BestOf(v: Verdict, head: nat, i: nat): nat
    requires i <= SAMPLES
  {
    Highest(v, head, Samples(head)[..i])
  }

  lemma HighestStep(v: Verdict, head: nat, i: nat)
    requires 1 <= i <= SAMPLES
    ensures var h, n := BestOf(v, head, i - 1), Sample(head, i);
      BestOf(v, head, i) == if Unavailable(v, head, n) && n > h then n else h
  {
    assert Samples(head)[..i][..i - 1] == Samples(head)[..i - 1];
  }

  lemma BestOfAll(v: Verdict, head: nat)
    ensures BestOf(v, head, 0) == 0
    ensures BestOf(v, head, SAMPLES) == Highest(v, head, Samples(head))
  {
    assert Samples(head)[..SAMPLES] == Samples(head);
  }

  /** Transient failures never move the floor: two probes of one set of verdicts, under
      any two schedules of noise, cancellation and retry budget, agree whenever neither
      aborts. */
  method ProbeTwice(
    ghost v: Verdict, head: nat, anchor: Anchor,
    node1: Node, cancelled1: nat -> bool, configured1: int,
    node2: Node, cancelled2: nat -> bool, configured2: int)
    returns (out1: Outcome, out2: Outcome)
    requires head < TWO64 && Honest(node1, v) && Honest(node2, v)
    ensures !out1.Aborted() && !out2.Aborted() ==> out1 == out2
    ensures out1.Found? ==> out2.Aborted() || out2 == out1
  {
    var p1 := new Prober(node1, cancelled1, configured1, v);
    out1 := p1.ProbeHistoryFloor(head, anchor);
    var p2 := new Prober(node2, cancelled2, configured2, v);
    out2 := p2.ProbeHistoryFloor(head, anchor);
  }
}
