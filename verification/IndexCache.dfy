/** The index-filter cache (internal/hintfilter/index.go): concurrent `Get` calls that
    build outside the lock, as a system of atomic steps. A step is one critical section
    or one answer from the store; calls interleave freely and the store answers at will. */
module IndexCache {
  import opened Wrappers

  /** One run of FromIndex: which snapshot of the store, as of which block. */
  datatype Build = Build(snapshot: nat, toBlock: nat)

  /** The three things FromIndex returns, each carrying the build it came from. */
  datatype Filter = Filter(of: Build)
  datatype Encoded = Encoded(of: Build)
  datatype Manifest = Manifest(of: Build)

  datatype Failure = CoverageFailed | SnapshotFailed | EmptyIndex | BuildFailed

  datatype Result = Handed(filter: Filter, encoded: Encoded, manifest: Manifest) | Failed(why: Failure)
  {
    predicate OneBuild() { Handed? ==> filter.of == encoded.of == manifest.of }

    /** How far the filter handed back reaches. */
    function ToBlock(): nat requires Handed? { filter.of.toBlock }
  }

  /** The fields the mutex guards. `kept` is filter, encoded and manifest together. */
  datatype Fields = Fields(isStatic: bool, kept: Option<Result>, builtAt: int, builtTo: nat)
  {
    function Reach(): nat { if kept.Some? && kept.value.Handed? then kept.value.ToBlock() else 0 }

    ghost predicate Valid()
    {
      && (kept.Some? ==> kept.value.Handed? && kept.value.OneBuild())
      && (isStatic ==> kept.Some?)
      && (!isStatic ==> builtTo == Reach())
    }
  }

  /** Where a call of Get stands. */
  datatype Call =
    | Began(seen: Fields)
    | Snapshotting(seen: Fields, to: nat)
    | Built(to: nat, build: Build)
    | Returned(result: Result)

  datatype Sys = Sys(fields: Fields, calls: map<nat, Call>)

  /** What SnapshotIndex and FromIndex made of a snapshot request. */
  datatype Snap = SnapErr | Empty | Unbuildable | Sets(snapshot: nat)

  datatype Step =
    | Begin(id: nat)
    | Coverage(id: nat, reply: Option<nat>, now: int)
    | Snapshot(id: nat, snap: Snap)
    | Install(id: nat, now: int)

  // ---------------------------------------------------------------- one step

  function KeptOr(f: Fields, why: Failure): Result
  {
    if f.kept.Some? then f.kept.value else Failed(why)
  }

  function AfterCoverage(f: Fields, reply: Option<nat>, now: int, minInterval: int): Call
  {
    match reply
    case None => Returned(KeptOr(f, CoverageFailed))
    case Some(to) =>
      if f.kept.Some? && (f.builtTo >= to || now - f.builtAt < minInterval) then Returned(f.kept.value)
      else Snapshotting(f, to)
  }

  function AfterSnapshot(f: Fields, to: nat, snap: Snap): Call
  {
    match snap
    case SnapErr => Returned(KeptOr(f, SnapshotFailed))
    case Empty => Returned(Failed(EmptyIndex))
    case Unbuildable => Returned(Failed(BuildFailed))
    case Sets(s) => Built(to, Build(s, to))
  }

  function AfterInstall(f: Fields, to: nat, b: Build, now: int): Fields
  {
    if f.kept.None? || to >= f.builtTo
    then f.(kept := Some(Handed(Filter(b), Encoded(b), Manifest(b))), builtAt := now, builtTo := to)
    else f
  }

  predicate Enabled(s: Sys, st: Step)
  {
    match st
    case Begin(id) => id !in s.calls
    case Coverage(id, _, _) => id in s.calls && s.calls[id].Began?
    case Snapshot(id, _) => id in s.calls && s.calls[id].Snapshotting?
    case Install(id, _) => id in s.calls && s.calls[id].Built?
  }

  function Apply(s: Sys, st: Step, minInterval: int): Sys
    requires Enabled(s, st)
  {
    match st
    case Begin(id) =>
      var c := if s.fields.isStatic && s.fields.kept.Some? then Returned(s.fields.kept.value)
               else Began(s.fields);
      s.(calls := s.calls[id := c])
    case Coverage(id, reply, now) =>
      s.(calls := s.calls[id := AfterCoverage(s.calls[id].seen, reply, now, minInterval)])
    case Snapshot(id, snap) =>
      s.(calls := s.calls[id := AfterSnapshot(s.calls[id].seen, s.calls[id].to, snap)])
    case Install(id, now) =>
      var c := s.calls[id];
      var f := AfterInstall(s.fields, c.to, c.build, now);
      Sys(f, s.calls[id := Returned(KeptOr(f, BuildFailed))])
  }

  // ---------------------------------------------------------------- what every step keeps

  /** `seen` is an earlier value of the fields `f` of a rebuilding cache. */
  predicate Older(seen: Fields, f: Fields)
  {
    !seen.isStatic && !f.isStatic && seen.Reach() <= f.Reach() && (seen.kept.Some? ==> f.kept.Some?)
  }

  ghost predicate CallOk(f: Fields, c: Call)
  {
    match c
    case Began(seen) => seen.Valid() && Older(seen, f)
    case Snapshotting(seen, _) => seen.Valid() && Older(seen, f)
    case Built(to, b) => b.toBlock == to && !f.isStatic
    case Returned(r) => r.OneBuild() && (r.Handed? ==> f.kept.Some? && r.ToBlock() <= f.Reach())
  }

  ghost predicate Inv(s: Sys)
  {
    s.fields.Valid() && forall id :: id in s.calls ==> CallOk(s.fields, s.calls[id])
  }

  lemma StepKeepsInv(s: Sys, st: Step, minInterval: int)
    requires Inv(s) && Enabled(s, st)
    ensures Inv(Apply(s, st, minInterval))
    ensures s.fields.Reach() <= Apply(s, st, minInterval).fields.Reach()
    ensures s.fields.kept.Some? ==> Apply(s, st, minInterval).fields.kept.Some?
    ensures s.fields.isStatic ==> Apply(s, st, minInterval).fields == s.fields
  {
    var t := Apply(s, st, minInterval);
    forall id | id in t.calls ensures CallOk(t.fields, t.calls[id]) {
      if id != st.id { assert CallOk(s.fields, s.calls[id]); }
      else if !st.Begin? { assert CallOk(s.fields, s.calls[id]); }
    }
  }

  /** Nothing call `id` holds or has handed back reaches less far than `low`. */
  ghost predicate AtLeast(s: Sys, id: nat, low: nat)
  {
    && low <= s.fields.Reach()
    && (id in s.calls ==>
          match s.calls[id]
          case Began(seen) => low <= seen.Reach()
          case Snapshotting(seen, _) => low <= seen.Reach()
          case Built(_, _) => true
          case Returned(r) => r.Handed? ==> low <= r.ToBlock())
  }

  /** Call `id` began with a filter in hand, so only an empty or unbuildable snapshot
      can make it fail. */
  ghost predicate Backed(s: Sys, id: nat)
  {
    && s.fields.kept.Some?
    && (id in s.calls ==>
          match s.calls[id]
          case Began(seen) => seen.kept.Some?
          case Snapshotting(seen, _) => seen.kept.Some?
          case Built(_, _) => true
          case Returned(r) => r.Failed? ==> r.why == EmptyIndex || r.why == BuildFailed)
  }

  lemma StepKeepsBounds(s: Sys, st: Step, minInterval: int, id: nat, low: nat)
    requires Inv(s) && Enabled(s, st)
    ensures AtLeast(s, id, low) ==> AtLeast(Apply(s, st, minInterval), id, low)
    ensures Backed(s, id) ==> Backed(Apply(s, st, minInterval), id)
  {
    StepKeepsInv(s, st, minInterval);
  }

  // ---------------------------------------------------------------- whole runs

  ghost predicate Initial(s: Sys)
  {
    && s.calls == map[]
    && (if s.fields.isStatic then s.fields.Valid() else s.fields.kept.None? && s.fields.builtTo == 0)
  }

  /** `run` is the states of some interleaving and `steps` the steps between them. */
  ghost predicate Run(run: seq<Sys>, steps: seq<Step>, minInterval: int)
  {
    && |run| == |steps| + 1 && Initial(run[0])
    && forall i :: 0 <= i < |steps| ==>
         Enabled(run[i], steps[i]) && run[i + 1] == Apply(run[i], steps[i], minInterval)
  }

  lemma {:induction false} RunKeepsInv(run: seq<Sys>, steps: seq<Step>, minInterval: int, k: nat)
    requires Run(run, steps, minInterval) && k < |run|
    ensures Inv(run[k])
  {
    if k > 0 {
      RunKeepsInv(run, steps, minInterval, k - 1);
      StepKeepsInv(run[k - 1], steps[k - 1], minInterval);
    }
  }

  /** builtTo never decreases, an installed filter stays installed, and filter, bytes,
      manifest and builtTo always describe one build. */
  lemma {:induction false} ReachNeverShrinks(run: seq<Sys>, steps: seq<Step>, minInterval: int, i: nat, j: nat)
    requires Run(run, steps, minInterval) && i <= j < |run|
    ensures run[i].fields.Reach() <= run[j].fields.Reach()
    ensures !run[i].fields.isStatic ==> run[i].fields.builtTo <= run[j].fields.builtTo
    ensures run[i].fields.kept.Some? ==> run[j].fields.kept.Some?
    ensures run[j].fields.kept.Some? ==> run[j].fields.kept.value.Handed? && run[j].fields.kept.value.OneBuild()
    ensures run[j].fields.kept.Some? && !run[j].fields.isStatic ==>
              run[j].fields.builtTo == run[j].fields.kept.value.ToBlock()
    ensures run[i].fields.isStatic ==> run[j].fields == run[i].fields
    ensures run[i].fields.isStatic == run[j].fields.isStatic
    decreases j
  {
    RunKeepsInv(run, steps, minInterval, j);
    if i < j {
      ReachNeverShrinks(run, steps, minInterval, i, j - 1);
      RunKeepsInv(run, steps, minInterval, j - 1);
      StepKeepsInv(run[j - 1], steps[j - 1], minInterval);
    }
  }

  lemma {:induction false} BoundsPersist(
    run: seq<Sys>, steps: seq<Step>, minInterval: int, i: nat, j: nat, id: nat, low: nat)
    requires Run(run, steps, minInterval) && i <= j < |run|
    ensures AtLeast(run[i], id, low) ==> AtLeast(run[j], id, low)
    ensures Backed(run[i], id) ==> Backed(run[j], id)
    decreases j
  {
    if i < j {
      BoundsPersist(run, steps, minInterval, i, j - 1, id, low);
      RunKeepsInv(run, steps, minInterval, j - 1);
      StepKeepsBounds(run[j - 1], steps[j - 1], minInterval, id, low);
    }
  }

  /** A Get that starts after another returned never hands back a smaller ToBlock. */
  lemma LaterGetReachesAsFar(
    run: seq<Sys>, steps: seq<Step>, minInterval: int, i: nat, j: nat, first: nat, second: nat)
    requires Run(run, steps, minInterval) && i <= j < |run|
    requires first in run[i].calls && run[i].calls[first].Returned? && run[i].calls[first].result.Handed?
    requires second !in run[i].calls
    requires second in run[j].calls && run[j].calls[second].Returned? && run[j].calls[second].result.Handed?
    ensures run[i].calls[first].result.ToBlock() <= run[j].calls[second].result.ToBlock()
    ensures run[j].calls[second].result.OneBuild()
  {
    RunKeepsInv(run, steps, minInterval, i);
    RunKeepsInv(run, steps, minInterval, j);
    assert CallOk(run[i].fields, run[i].calls[first]);
    assert CallOk(run[j].fields, run[j].calls[second]);
    var low := run[i].calls[first].result.ToBlock();
    assert AtLeast(run[i], second, low);
    BoundsPersist(run, steps, minInterval, i, j, second, low);
  }

  /** Once a filter is installed, coverage and snapshot errors never become a failure of
      a Get that starts afterwards: whatever still fails is an empty or unbuildable index. */
  lemma StoreErrorsAreAbsorbed(run: seq<Sys>, steps: seq<Step>, minInterval: int, i: nat, j: nat, id: nat)
    requires Run(run, steps, minInterval) && i <= j < |run|
    requires run[i].fields.kept.Some? && id !in run[i].calls
    requires id in run[j].calls && run[j].calls[id].Returned?
    ensures run[j].calls[id].result.Handed? || run[j].calls[id].result.why in {EmptyIndex, BuildFailed}
  {
    assert Backed(run[i], id);
    BoundsPersist(run, steps, minInterval, i, j, id, 0);
  }

  // ---------------------------------------------------------------- exactly when a call fails

  /** How far a call has got. */
  function Stage(c: Call): nat
  {
    match c case Began(_) => 0 case Snapshotting(_, _) => 1 case Built(_, _) => 2 case Returned(_) => 3
  }

  /** A call never goes back, and changes only by going on. */
  lemma {:induction false} CallPersists(run: seq<Sys>, steps: seq<Step>, minInterval: int, m: nat, n: nat, id: nat)
    requires Run(run, steps, minInterval) && m <= n < |run| && id in run[m].calls
    ensures id in run[n].calls && Stage(run[m].calls[id]) <= Stage(run[n].calls[id])
    ensures Stage(run[m].calls[id]) == Stage(run[n].calls[id]) ==> run[m].calls[id] == run[n].calls[id]
    decreases n
  {
    if m < n {
      CallPersists(run, steps, minInterval, m, n - 1, id);
      assert Enabled(run[n - 1], steps[n - 1]);
      assert run[n] == Apply(run[n - 1], steps[n - 1], minInterval);
    }
  }

  /** Step b begins call `id`. */
  ghost predicate Begins(steps: seq<Step>, b: nat, id: nat)
  {
    b < |steps| && steps[b] == Begin(id)
  }

  /** Step k answers it with coverage past what the cache held at step b, the interval over. */
  ghost predicate Advances(run: seq<Sys>, steps: seq<Step>, minInterval: int, b: nat, k: nat, id: nat)
    requires |run| == |steps| + 1 && b < |steps|
  {
    && k < |steps| && steps[k].Coverage? && steps[k].id == id && steps[k].reply.Some?
    && run[b].fields.builtTo < steps[k].reply.value && steps[k].now - run[b].fields.builtAt >= minInterval
  }

  /** Step l answers it with a snapshot that is empty or cannot be built. */
  ghost predicate Disappoints(steps: seq<Step>, l: nat, id: nat)
  {
    l < |steps| && steps[l].Snapshot? && steps[l].id == id && (steps[l].snap.Empty? || steps[l].snap.Unbuildable?)
  }

  ghost predicate FailedBy(
    run: seq<Sys>, steps: seq<Step>, minInterval: int, id: nat, b: nat, k: nat, l: nat)
    requires |run| == |steps| + 1
  {
    b < k < l && Begins(steps, b, id) && Advances(run, steps, minInterval, b, k, id) && Disappoints(steps, l, id)
  }

  lemma {:induction false} WhereBegun(run: seq<Sys>, steps: seq<Step>, minInterval: int, n: nat, id: nat)
    returns (b: nat)
    requires Run(run, steps, minInterval) && n < |run| && id in run[n].calls && run[n].calls[id].Began?
    ensures b < n && Begins(steps, b, id) && run[n].calls[id] == Began(run[b].fields)
  {
    assert n > 0;
    var st := steps[n - 1];
    assert Enabled(run[n - 1], st) && run[n] == Apply(run[n - 1], st, minInterval);
    if st == Begin(id) { b := n - 1; } else { b := WhereBegun(run, steps, minInterval, n - 1, id); }
  }

  lemma {:induction false} WhereAdvanced(run: seq<Sys>, steps: seq<Step>, minInterval: int, n: nat, id: nat)
    returns (b: nat, k: nat)
    requires Run(run, steps, minInterval) && n < |run| && id in run[n].calls && run[n].calls[id].Snapshotting?
    ensures b < k < n && Begins(steps, b, id) && run[n].calls[id].seen == run[b].fields
    ensures steps[k].Coverage? && steps[k].id == id && steps[k].reply == Some(run[n].calls[id].to)
    ensures run[b].fields.kept.Some? ==> Advances(run, steps, minInterval, b, k, id)
  {
    assert n > 0;
    var st := steps[n - 1];
    assert Enabled(run[n - 1], st) && run[n] == Apply(run[n - 1], st, minInterval);
    if st.Coverage? && st.id == id {
      b := WhereBegun(run, steps, minInterval, n - 1, id);
      k := n - 1;
    } else {
      b, k := WhereAdvanced(run, steps, minInterval, n - 1, id);
    }
  }

  /** A call begun after the cache was filled began with a filter in hand. */
  lemma BegunFull(run: seq<Sys>, steps: seq<Step>, minInterval: int, i: nat, b: nat, id: nat)
    requires Run(run, steps, minInterval) && i < |run| && Begins(steps, b, id)
    requires run[i].fields.kept.Some? && id !in run[i].calls
    ensures i <= b && run[b].fields.kept.Some? && run[b].fields.kept.value.Handed?
  {
    assert Enabled(run[b], steps[b]) && run[b + 1] == Apply(run[b], steps[b], minInterval);
    if b < i { CallPersists(run, steps, minInterval, b + 1, i, id); assert false; }
    ReachNeverShrinks(run, steps, minInterval, i, b);
  }

  lemma {:induction false} WhereFailed(
    run: seq<Sys>, steps: seq<Step>, minInterval: int, i: nat, j: nat, id: nat)
    returns (b: nat, k: nat, l: nat)
    requires Run(run, steps, minInterval) && i <= j < |run|
    requires run[i].fields.kept.Some? && id !in run[i].calls
    requires id in run[j].calls && run[j].calls[id].Returned? && run[j].calls[id].result.Failed?
    ensures i <= b && l < j && FailedBy(run, steps, minInterval, id, b, k, l)
    decreases j
  {
    var m := j - 1;
    var st := steps[m];
    assert Enabled(run[m], st) && run[j] == Apply(run[m], st, minInterval);
    RunKeepsInv(run, steps, minInterval, m);
    if id in run[m].calls && run[m].calls[id] == run[j].calls[id] {
      b, k, l := WhereFailed(run, steps, minInterval, i, m, id);
    } else if st.Coverage? {
      b := WhereBegun(run, steps, minInterval, m, id);
      BegunFull(run, steps, minInterval, i, b, id);
      assert false;
    } else {
      assert st.Snapshot?;
      b, k := WhereAdvanced(run, steps, minInterval, m, id);
      BegunFull(run, steps, minInterval, i, b, id);
      l := m;
    }
  }

  lemma FailureFollows(
    run: seq<Sys>, steps: seq<Step>, minInterval: int, i: nat, j: nat, id: nat, b: nat, k: nat, l: nat)
    requires Run(run, steps, minInterval) && i <= j < |run|
    requires run[i].fields.kept.Some? && id !in run[i].calls
    requires l < j && FailedBy(run, steps, minInterval, id, b, k, l)
    ensures id in run[j].calls && run[j].calls[id].Returned? && run[j].calls[id].result.Failed?
  {
    assert Enabled(run[b], steps[b]) && Enabled(run[k], steps[k]) && Enabled(run[l], steps[l]);
    assert run[b + 1] == Apply(run[b], steps[b], minInterval);
    CallPersists(run, steps, minInterval, b + 1, k, id);
    assert run[k].calls[id] == Began(run[b].fields);
    assert run[k + 1] == Apply(run[k], steps[k], minInterval);
    BegunFull(run, steps, minInterval, i, b, id);
    assert run[k + 1].calls[id] == Snapshotting(run[b].fields, steps[k].reply.value);
    CallPersists(run, steps, minInterval, k + 1, l, id);
    assert run[l + 1] == Apply(run[l], steps[l], minInterval);
    CallPersists(run, steps, minInterval, l + 1, j, id);
  }

  /** Over every run: a Get that starts once a filter is installed fails exactly when its
      own coverage answer lay past what was cached as it began, with the interval over,
      and its own snapshot came back empty or could not be built. */
  lemma BackedCallFailsIff(run: seq<Sys>, steps: seq<Step>, minInterval: int, i: nat, j: nat, id: nat)
    requires Run(run, steps, minInterval) && i <= j < |run|
    requires run[i].fields.kept.Some? && id !in run[i].calls
    ensures (id in run[j].calls && run[j].calls[id].Returned? && run[j].calls[id].result.Failed?)
            <==> exists b: nat, k: nat, l: nat :: l < j && FailedBy(run, steps, minInterval, id, b, k, l)
  {
    if id in run[j].calls && run[j].calls[id].Returned? && run[j].calls[id].result.Failed? {
      var b, k, l := WhereFailed(run, steps, minInterval, i, j, id);
    }
    if b: nat, k: nat, l: nat :| l < j && FailedBy(run, steps, minInterval, id, b, k, l) {
      FailureFollows(run, steps, minInterval, i, j, id, b, k, l);
    }
  }

  // ---------------------------------------------------------------- what a call returns

  /** A call that has a build in hand made it of its own coverage and snapshot answers. */
  lemma {:induction false} WhereBuilt(run: seq<Sys>, steps: seq<Step>, minInterval: int, n: nat, id: nat)
    returns (b: nat, k: nat, l: nat)
    requires Run(run, steps, minInterval) && n < |run| && id in run[n].calls && run[n].calls[id].Built?
    ensures b < k < l < n && Begins(steps, b, id)
    ensures steps[k].Coverage? && steps[k].id == id && steps[k].reply == Some(run[n].calls[id].to)
    ensures steps[l].Snapshot? && steps[l].id == id && steps[l].snap.Sets?
    ensures run[n].calls[id].build == Build(steps[l].snap.snapshot, run[n].calls[id].to)
    ensures run[b].fields.kept.Some? ==> Advances(run, steps, minInterval, b, k, id)
  {
    assert n > 0;
    var st := steps[n - 1];
    assert Enabled(run[n - 1], st) && run[n] == Apply(run[n - 1], st, minInterval);
    if st.Snapshot? && st.id == id {
      b, k := WhereAdvanced(run, steps, minInterval, n - 1, id);
      l := n - 1;
    } else {
      b, k, l := WhereBuilt(run, steps, minInterval, n - 1, id);
    }
  }

  /** The result of a call, in its own steps: begun at b, its coverage answered at k, its
      snapshot at l, its build installed at m. What was kept at b is handed back when there
      is no coverage answer, when it reaches far enough or is young enough, and when the
      snapshot fails; a good snapshot hands back what is kept right after the install. */
  ghost predicate Accounts(
    run: seq<Sys>, steps: seq<Step>, minInterval: int, id: nat, r: Result, b: nat, k: nat, l: nat, m: nat)
    requires |run| == |steps| + 1 && b < |steps|
  {
    var f := run[b].fields;
    && Begins(steps, b, id)
    && if f.isStatic then f.kept == Some(r)
       else
         && b < k < |steps| && steps[k].Coverage? && steps[k].id == id
         && match steps[k].reply
            case None => r == (if f.kept.Some? then f.kept.value else Failed(CoverageFailed))
            case Some(to) =>
              if f.kept.Some? && (to <= f.builtTo || steps[k].now < f.builtAt + minInterval) then r == f.kept.value
              else
                && k < l < |steps| && steps[l].Snapshot? && steps[l].id == id
                && match steps[l].snap
                   case SnapErr => r == (if f.kept.Some? then f.kept.value else Failed(SnapshotFailed))
                   case Empty => r == Failed(EmptyIndex)
                   case Unbuildable => r == Failed(BuildFailed)
                   case Sets(_) =>
                     && l < m < |steps| && steps[m].Install? && steps[m].id == id
                     && run[m + 1].fields.kept == Some(r)
  }

  /** Every returned call is accounted for. */
  lemma {:induction false} ReturnedExactly(run: seq<Sys>, steps: seq<Step>, minInterval: int, j: nat, id: nat)
    returns (b: nat, k: nat, l: nat, m: nat)
    requires Run(run, steps, minInterval) && j < |run| && id in run[j].calls && run[j].calls[id].Returned?
    ensures b < j && k < j && l < j && m < j
    ensures Accounts(run, steps, minInterval, id, run[j].calls[id].result, b, k, l, m)
  {
    assert j > 0;
    var n := j - 1;
    var st := steps[n];
    assert Enabled(run[n], st) && run[j] == Apply(run[n], st, minInterval);
    RunKeepsInv(run, steps, minInterval, n);
    if id in run[n].calls && run[n].calls[id].Returned? {
      b, k, l, m := ReturnedExactly(run, steps, minInterval, n, id);
    } else {
      k, l, m := 0, 0, 0;
      match st
      case Begin(_) => b := n;
      case Coverage(_, _, _) =>
        b := WhereBegun(run, steps, minInterval, n, id);
        NotStatic(run, steps, minInterval, b, n, id);
        k := n;
      case Snapshot(_, _) =>
        b, k := WhereAdvanced(run, steps, minInterval, n, id);
        NotStatic(run, steps, minInterval, b, n, id);
        l := n;
      case Install(_, _) =>
        b, k, l := WhereBuilt(run, steps, minInterval, n, id);
        NotStatic(run, steps, minInterval, b, n, id);
        m := n;
    }
  }

  /** A call that is still under way did not begin on a static cache. */
  lemma NotStatic(run: seq<Sys>, steps: seq<Step>, minInterval: int, b: nat, n: nat, id: nat)
    requires Run(run, steps, minInterval) && b < n < |run| && Begins(steps, b, id)
    requires id in run[n].calls && !run[n].calls[id].Returned?
    ensures !run[b].fields.isStatic
  {
    assert Enabled(run[b], steps[b]) && run[b + 1] == Apply(run[b], steps[b], minInterval);
    RunKeepsInv(run, steps, minInterval, b);
    CallPersists(run, steps, minInterval, b + 1, n, id);
  }

  /** A call asks for coverage once. */
  lemma OneCoverage(run: seq<Sys>, steps: seq<Step>, minInterval: int, k: nat, l: nat, id: nat)
    requires Run(run, steps, minInterval) && k < |steps| && l < |steps|
    requires steps[k].Coverage? && steps[k].id == id && steps[l].Coverage? && steps[l].id == id
    ensures k == l
  {
    var first, second := if k < l then k else l, if k < l then l else k;
    if first < second {
      assert Enabled(run[first], steps[first]) && Enabled(run[second], steps[second]);
      assert run[first + 1] == Apply(run[first], steps[first], minInterval);
      CallPersists(run, steps, minInterval, first + 1, second, id);
    }
  }

  /** A build in hand is installed before its call returns, and the call hands back what is
      kept right after. */
  lemma {:induction false} WhereInstalled(run: seq<Sys>, steps: seq<Step>, minInterval: int, i: nat, j: nat, id: nat)
    returns (m: nat)
    requires Run(run, steps, minInterval) && i <= j < |run|
    requires id in run[i].calls && run[i].calls[id].Built?
    requires id in run[j].calls && run[j].calls[id].Returned?
    ensures i <= m < j && steps[m].Install? && steps[m].id == id
    ensures id in run[m].calls && run[m].calls[id] == run[i].calls[id]
    ensures run[m + 1].fields.kept == Some(run[j].calls[id].result)
    decreases j
  {
    assert i < j;
    var n := j - 1;
    assert Enabled(run[n], steps[n]) && run[j] == Apply(run[n], steps[n], minInterval);
    CallPersists(run, steps, minInterval, i, n, id);
    if run[n].calls[id].Returned? {
      m := WhereInstalled(run, steps, minInterval, i, n, id);
    } else {
      m := n;
    }
  }

  /** An install leaves the cache reaching at least as far as its build. */
  lemma InstallReaches(run: seq<Sys>, steps: seq<Step>, minInterval: int, m: nat)
    requires Run(run, steps, minInterval) && m < |steps| && steps[m].Install?
    ensures steps[m].id in run[m].calls && run[m].calls[steps[m].id].Built?
    ensures !run[m + 1].fields.isStatic && run[m + 1].fields.kept.Some?
    ensures run[m + 1].fields.builtTo >= run[m].calls[steps[m].id].to
  {
    assert Enabled(run[m], steps[m]) && run[m + 1] == Apply(run[m], steps[m], minInterval);
    RunKeepsInv(run, steps, minInterval, m);
    assert CallOk(run[m].fields, run[m].calls[steps[m].id]);
  }

  /** A call whose own coverage answered `to` and whose own snapshot was good hands back a
      filter that reaches at least as far, and from then on so does the cache. */
  lemma RefreshReaches(
    run: seq<Sys>, steps: seq<Step>, minInterval: int, j: nat, id: nat, k: nat, l: nat, to: nat)
    requires Run(run, steps, minInterval) && l < j < |run| && id in run[j].calls && run[j].calls[id].Returned?
    requires k < |steps| && steps[k].Coverage? && steps[k].id == id && steps[k].reply == Some(to)
    requires steps[l].Snapshot? && steps[l].id == id && steps[l].snap.Sets?
    ensures run[j].calls[id].result.Handed? && run[j].calls[id].result.ToBlock() >= to
    ensures forall i :: j <= i < |run| ==> run[i].fields.kept.Some? && run[i].fields.builtTo >= to
  {
    assert Enabled(run[l], steps[l]) && run[l + 1] == Apply(run[l], steps[l], minInterval);
    var b, k', l' := WhereBuilt(run, steps, minInterval, l + 1, id);
    OneCoverage(run, steps, minInterval, k, k', id);
    var m := WhereInstalled(run, steps, minInterval, l + 1, j, id);
    InstallReaches(run, steps, minInterval, m);
    ReachNeverShrinks(run, steps, minInterval, m + 1, m + 1);
    forall i | j <= i < |run| ensures run[i].fields.kept.Some? && run[i].fields.builtTo >= to {
      ReachNeverShrinks(run, steps, minInterval, m + 1, i);
    }
  }

  // ---------------------------------------------------------------- what is kept

  /** Step m installs a build that reaches `to`. */
  ghost predicate InstallsTo(run: seq<Sys>, steps: seq<Step>, m: nat, to: nat)
    requires |run| == |steps| + 1
  {
    && m < |steps| && steps[m].Install? && steps[m].id in run[m].calls
    && run[m].calls[steps[m].id].Built? && run[m].calls[steps[m].id].to == to
  }

  /** What is kept is the build of the install that reached furthest, the latest of those
      that reached as far, with that install's time; before any install nothing is. */
  lemma {:induction false} KeptIsFurthest(run: seq<Sys>, steps: seq<Step>, minInterval: int, n: nat)
    returns (m: nat)
    requires Run(run, steps, minInterval) && n < |run| && !run[0].fields.isStatic
    ensures run[n].fields.kept.None? <==> forall i :: 0 <= i < n ==> !steps[i].Install?
    ensures run[n].fields.kept.Some? ==>
      && m < n && InstallsTo(run, steps, m, run[n].fields.builtTo)
      && run[n].fields.builtAt == steps[m].now
      && var b := run[m].calls[steps[m].id].build;
         run[n].fields.kept == Some(Handed(Filter(b), Encoded(b), Manifest(b)))
    ensures run[n].fields.kept.Some? ==>
      forall i: nat, to: nat :: i < n && InstallsTo(run, steps, i, to) ==>
        to <= run[n].fields.builtTo && (i > m ==> to < run[n].fields.builtTo)
  {
    m := 0;
    if n > 0 {
      var st := steps[n - 1];
      assert Enabled(run[n - 1], st) && run[n] == Apply(run[n - 1], st, minInterval);
      m := KeptIsFurthest(run, steps, minInterval, n - 1);
      ReachNeverShrinks(run, steps, minInterval, 0, n - 1);
      if st.Install? {
        var f, to := run[n - 1].fields, run[n - 1].calls[st.id].to;
        assert InstallsTo(run, steps, n - 1, to);
        if f.kept.None? || to >= f.builtTo { m := n - 1; }
      }
    }
  }

  /** The failing case is reachable: a second Get whose snapshot comes back empty fails
      although the first one installed a filter. */
  lemma EmptySnapshotFailsDespiteFilter()
    returns (run: seq<Sys>, steps: seq<Step>)
    ensures Run(run, steps, 0) && |run| == 8
    ensures run[4].fields.kept.Some? && 1 !in run[4].calls
    ensures 1 in run[7].calls && run[7].calls[1] == Returned(Failed(EmptyIndex))
  {
    var s0 := Sys(Fields(false, None, 0, 0), map[]);
    steps := [Begin(0), Coverage(0, Some(10), 0), Snapshot(0, Sets(7)), Install(0, 0),
              Begin(1), Coverage(1, Some(20), 5), Snapshot(1, Empty)];
    var s1 := Apply(s0, steps[0], 0);
    var s2 := Apply(s1, steps[1], 0);
    var s3 := Apply(s2, steps[2], 0);
    var s4 := Apply(s3, steps[3], 0);
    var s5 := Apply(s4, steps[4], 0);
    var s6 := Apply(s5, steps[5], 0);
    var s7 := Apply(s6, steps[6], 0);
    run := [s0, s1, s2, s3, s4, s5, s6, s7];
    assert s4.fields.kept.Some? && s4.fields.builtTo == 10;
    assert s6.calls[1].Snapshotting?;
  }

  // ---------------------------------------------------------------- the object

  /** Cache, with its critical sections as methods; each is one step of the system. */
  class Cache {
    const isStatic: bool
    var filter: Option<Filter>
    var encoded: Option<Encoded>
    var manifest: Option<Manifest>
    var builtAt: int
    var builtTo: nat

    ghost predicate Valid()
      reads this
    {
      (filter.Some? <==> encoded.Some?) && (filter.Some? <==> manifest.Some?)
    }

    function Guarded(): Fields
      reads this
      requires Valid()
    {
      Fields(isStatic,
             if filter.Some? then Some(Handed(filter.value, encoded.value, manifest.value)) else None,
             builtAt, builtTo)
    }

    constructor ()
      ensures Valid() && Initial(Sys(Guarded(), map[]))
    {
      isStatic, filter, encoded, manifest, builtAt, builtTo := false, None, None, None, 0, 0;
    }

    /** The first critical section: copy what is cached. */
    method Look() returns (seen: Fields)
      requires Valid()
      ensures seen == Guarded()
    {
      var kept := None;
      if filter.Some? { kept := Some(Handed(filter.value, encoded.value, manifest.value)); }
      seen := Fields(isStatic, kept, builtAt, builtTo);
    }

    /** The last critical section: keep whichever build covers more, hand back the kept one. */
    method Finish(to: nat, b: Build, now: int) returns (r: Result)
      requires Valid()
      modifies this
      ensures Valid()
      ensures Guarded() == AfterInstall(old(Guarded()), to, b, now)
      ensures Some(r) == Guarded().kept
    {
      if filter.None? || to >= builtTo {
        filter, encoded, manifest := Some(Filter(b)), Some(Encoded(b)), Some(Manifest(b));
        builtAt, builtTo := now, to;
      }
      r := Handed(filter.value, encoded.value, manifest.value);
    }
  }
}
