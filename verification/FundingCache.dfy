/** The registry-funding cache (internal/api/funding.go): a mutex over two maps, a
    counting semaphore and background refreshes, as a system of atomic steps. */
module FundingCache {
  import opened Wrappers

  type Key = nat      // an asset key (common.Hash)
  type Funding = nat  // a funding reading; nothing here looks inside one

  const WORKERS: nat := 4   // fundingWorkers
  const TTL: int := 300     // fundingTTL, in seconds

  datatype Entry = Entry(f: Funding, at: int)

  /** The cache itself: `got` and `inflight` under the mutex, and the tokens in `sem`. */
  datatype Shared = Shared(got: map<Key, Entry>, inflight: set<Key>, tokens: nat)

  /** A refresh goroutine: reading the registry, answered, past its put, past clearing
      its in-flight mark. The next thing a Cleared one does is release its token. */
  datatype Refresh =
    | Reading(key: Key)
    | Answered(key: Key, reply: Option<Funding>)
    | Settled(key: Key)
    | Cleared(key: Key)

  /** Two histories ride along: `answers`, every reading the registry has given and for
      which asset, and `owner`, which refresh set each in-flight mark. */
  datatype Sys = Sys(
    shared: Shared, live: map<nat, Refresh>, answers: set<(Key, Funding)>, owner: map<Key, nat>)

  datatype Step =
    | Get(key: Key, now: int, id: nat)
    | Answer(id: nat, reply: Option<Funding>)
    | Settle(id: nat, now: int)
    | Clear(id: nat)
    | Release(id: nat)
    | Fetch(key: Key, f: Funding, now: int)

  // ---------------------------------------------------------------- one step

  predicate Fresh(c: Shared, key: Key, now: int)
  {
    key in c.got && now - c.got[key].at < TTL
  }

  /** Whether `get` starts a refresh: stale, none running, and a worker free. */
  predicate Starts(c: Shared, key: Key, now: int)
  {
    !Fresh(c, key, now) && key !in c.inflight && c.tokens < WORKERS
  }

  function AfterGet(c: Shared, key: Key, now: int): Shared
  {
    if Starts(c, key, now) then c.(inflight := c.inflight + {key}, tokens := c.tokens + 1) else c
  }

  function AfterPut(c: Shared, key: Key, f: Funding, now: int): Shared
  {
    c.(got := c.got[key := Entry(f, now)])
  }

  predicate Enabled(s: Sys, st: Step)
  {
    match st
    case Get(_, _, id) => id !in s.live
    case Answer(id, _) => id in s.live && s.live[id].Reading?
    case Settle(id, _) => id in s.live && s.live[id].Answered?
    case Clear(id) => id in s.live && s.live[id].Settled?
    case Release(id) => id in s.live && s.live[id].Cleared? && s.shared.tokens > 0
    case Fetch(_, _, _) => true
  }

  function Apply(s: Sys, st: Step): Sys
    requires Enabled(s, st)
  {
    var c := s.shared;
    match st
    case Get(key, now, id) =>
      s.(shared := AfterGet(c, key, now),
         live := if Starts(c, key, now) then s.live[id := Reading(key)] else s.live,
         owner := if Starts(c, key, now) then s.owner[key := id] else s.owner)
    case Answer(id, reply) =>
      var key := s.live[id].key;
      s.(live := s.live[id := Answered(key, reply)],
         answers := if reply.Some? then s.answers + {(key, reply.value)} else s.answers)
    case Settle(id, now) =>
      var r := s.live[id];
      s.(shared := if r.reply.Some? then AfterPut(c, r.key, r.reply.value, now) else c,
         live := s.live[id := Settled(r.key)])
    case Clear(id) =>
      var key := s.live[id].key;
      s.(shared := c.(inflight := c.inflight - {key}), live := s.live[id := Cleared(key)],
         owner := s.owner - {key})
    case Release(id) =>
      s.(shared := c.(tokens := c.tokens - 1), live := s.live - {id})
    case Fetch(key, f, now) =>
      s.(shared := AfterPut(c, key, f, now), answers := s.answers + {(key, f)})
  }

  // ---------------------------------------------------------------- what every step keeps

  /** A refresh that has not yet cleared its key from `inflight`. */
  predicate Marks(s: Sys, id: nat)
  {
    id in s.live && !s.live[id].Cleared?
  }

  /** Every live refresh holds one token, and there are at most four. */
  predicate TokensOk(s: Sys)
  {
    s.shared.tokens == |s.live| <= WORKERS
  }

  /** Each in-flight mark belongs to one refresh that has not cleared it, and each such
      refresh owns the mark on its key. */
  ghost predicate MarksOk(s: Sys)
  {
    && s.owner.Keys == s.shared.inflight
    && (forall k :: k in s.owner ==> Marks(s, s.owner[k]) && s.live[s.owner[k]].key == k)
    && (forall id :: Marks(s, id) ==> s.live[id].key in s.owner && s.owner[s.live[id].key] == id)
  }

  /** Every reading on file or on its way there was given for that very key. */
  ghost predicate ReadingsOk(s: Sys)
  {
    && (forall k :: k in s.shared.got ==> (k, s.shared.got[k].f) in s.answers)
    && (forall id :: id in s.live && s.live[id].Answered? && s.live[id].reply.Some? ==>
          (s.live[id].key, s.live[id].reply.value) in s.answers)
  }

  ghost predicate Inv(s: Sys)
  {
    TokensOk(s) && MarksOk(s) && ReadingsOk(s)
  }

  lemma StepKeepsTokens(s: Sys, st: Step)
    requires TokensOk(s) && Enabled(s, st)
    ensures TokensOk(Apply(s, st))
  {
    var t := Apply(s, st);
    match st
    case Get(key, now, id) =>
      if Starts(s.shared, key, now) { assert t.live.Keys == s.live.Keys + {id}; }
    case Fetch(_, _, _) =>
    case Release(id) => assert t.live.Keys == s.live.Keys - {id};
    case _ => assert t.live.Keys == s.live.Keys;
  }

  lemma StepKeepsMarks(s: Sys, st: Step)
    requires MarksOk(s) && Enabled(s, st)
    ensures MarksOk(Apply(s, st))
  {
    match st
    case Get(key, now, id) =>
    case Answer(id, _) => RephaseKeepsMarks(s, Apply(s, st), id);
    case Settle(id, _) => RephaseKeepsMarks(s, Apply(s, st), id);
    case Clear(id) =>
    case Release(id) =>
    case Fetch(_, _, _) =>
  }

  lemma RephaseKeepsMarks(s: Sys, t: Sys, id: nat)
    requires MarksOk(s) && Marks(s, id) && Marks(t, id)
    requires t.live == s.live[id := t.live[id]] && t.live[id].key == s.live[id].key
    requires t.shared.inflight == s.shared.inflight && t.owner == s.owner
    ensures MarksOk(t)
  {
    assert forall i :: Marks(t, i) <==> Marks(s, i);
  }

  lemma StepKeepsReadings(s: Sys, st: Step)
    requires ReadingsOk(s) && Enabled(s, st)
    ensures ReadingsOk(Apply(s, st))
  {}

  lemma StepKeepsInv(s: Sys, st: Step)
    requires Inv(s) && Enabled(s, st)
    ensures Inv(Apply(s, st))
  {
    StepKeepsTokens(s, st);
    StepKeepsMarks(s, st);
    StepKeepsReadings(s, st);
  }

  // ---------------------------------------------------------------- whole runs

  ghost predicate Initial(s: Sys)
  {
    s == Sys(Shared(map[], {}, 0), map[], {}, map[])
  }

  ghost predicate Run(run: seq<Sys>, steps: seq<Step>)
  {
    && |run| == |steps| + 1 && Initial(run[0])
    && forall i :: 0 <= i < |steps| ==> Enabled(run[i], steps[i]) && run[i + 1] == Apply(run[i], steps[i])
  }

  lemma {:induction false} RunKeepsInv(run: seq<Sys>, steps: seq<Step>, k: nat)
    requires Run(run, steps) && k < |run|
    ensures Inv(run[k])
  {
    if k > 0 {
      RunKeepsInv(run, steps, k - 1);
      StepKeepsInv(run[k - 1], steps[k - 1]);
    }
  }

  /** Semaphore theorem. In every state of every run the tokens held are the live
      refreshes, never more than four; `inflight` is exactly the keys of those that have
      not cleared theirs, one each; and with no refresh live nothing is left behind. */
  lemma TokensAndMarksBalance(run: seq<Sys>, steps: seq<Step>, k: nat)
    requires Run(run, steps) && k < |run|
    ensures var s := run[k];
      && s.shared.tokens == |s.live| <= 4
      && s.shared.inflight == (set id | id in s.live && Marks(s, id) :: s.live[id].key)
      && (forall i, j :: Marks(s, i) && Marks(s, j) && s.live[i].key == s.live[j].key ==> i == j)
      && (s.live == map[] ==> s.shared.tokens == 0 && s.shared.inflight == {})
  {
    RunKeepsInv(run, steps, k);
  }

  /** No refresh is ever stuck; in particular a release never waits for a token. */
  lemma EveryRefreshCanMove(run: seq<Sys>, steps: seq<Step>, k: nat, id: nat)
    requires Run(run, steps) && k < |run| && id in run[k].live
    ensures run[k].live[id].Reading? ==> forall reply :: Enabled(run[k], Answer(id, reply))
    ensures run[k].live[id].Answered? ==> forall now :: Enabled(run[k], Settle(id, now))
    ensures run[k].live[id].Settled? ==> Enabled(run[k], Clear(id))
    ensures run[k].live[id].Cleared? ==> Enabled(run[k], Release(id))
  {
    RunKeepsInv(run, steps, k);
    assert run[k].live.Keys != {};
  }

  /** The steps lead from `s` to `t`. */
  ghost predicate Leads(s: Sys, steps: seq<Step>, t: Sys)
    decreases steps
  {
    if steps == [] then s == t
    else Enabled(s, steps[0]) && Leads(Apply(s, steps[0]), steps[1..], t)
  }

  lemma LeadsFrom(s: Sys, st: Step, steps: seq<Step>, t: Sys)
    requires Enabled(s, st) && Leads(Apply(s, st), steps, t)
    ensures Leads(s, [st] + steps, t)
  {
    assert ([st] + steps)[1..] == steps;
  }

  lemma {:induction false} LeadsOn(s: Sys, a: seq<Step>, t: Sys, b: seq<Step>, u: Sys)
    requires Leads(s, a, t) && Leads(t, b, u)
    ensures Leads(s, a + b, u)
    decreases a
  {
    if a == [] {
      assert a + b == b;
    } else {
      LeadsOn(Apply(s, a[0]), a[1..], t, b, u);
      LeadsFrom(s, a[0], a[1..] + b, u);
      assert [a[0]] + (a[1..] + b) == a + b;
    }
  }

  /** The steps a refresh still has ahead of it. */
  function Ahead(r: Refresh): nat
  {
    match r case Reading(_) => 4 case Answered(_, _) => 3 case Settled(_) => 2 case Cleared(_) => 1
  }

  /** The next step of refresh `id`; a failed reading is as good as any. */
  function Next(s: Sys, id: nat): Step
    requires id in s.live
  {
    match s.live[id]
    case Reading(_) => Answer(id, None)
    case Answered(_, _) => Settle(id, 0)
    case Settled(_) => Clear(id)
    case Cleared(_) => Release(id)
  }

  lemma NextMoves(s: Sys, id: nat)
    requires Inv(s) && id in s.live
    ensures Enabled(s, Next(s, id)) && Inv(Apply(s, Next(s, id)))
    ensures var t := Apply(s, Next(s, id));
      if s.live[id].Cleared? then t.live == s.live - {id}
      else t.live.Keys == s.live.Keys && Ahead(t.live[id]) == Ahead(s.live[id]) - 1
  {
    assert s.live.Keys != {};
    StepKeepsInv(s, Next(s, id));
  }

  lemma {:induction false} FinishOne(s: Sys, id: nat) returns (t: Sys, steps: seq<Step>)
    requires Inv(s) && id in s.live
    ensures Leads(s, steps, t) && |steps| <= Ahead(s.live[id])
    ensures Inv(t) && t.live.Keys == s.live.Keys - {id}
    decreases Ahead(s.live[id])
  {
    NextMoves(s, id);
    var u := Apply(s, Next(s, id));
    t, steps := u, [];
    if !s.live[id].Cleared? { t, steps := FinishOne(u, id); }
    LeadsFrom(s, Next(s, id), steps, t);
    steps := [Next(s, id)] + steps;
  }

  lemma NothingLeft(s: Sys)
    requires Inv(s) && s.live == map[]
    ensures s.shared.tokens == 0 && s.shared.inflight == {}
  {
    assert s.owner.Keys == {};
  }

  lemma OneFewer(s: Sys, u: Sys, id: nat)
    requires id in s.live && u.live.Keys == s.live.Keys - {id}
    ensures |u.live| == |s.live| - 1
  {
    assert |u.live.Keys| == |s.live.Keys| - 1;
  }

  /** Nothing leaks: from any state a run can be in, finishing the live refreshes takes at
      most four steps each, and leaves no token held and no mark set. */
  lemma {:induction false} Drains(s: Sys) returns (t: Sys, steps: seq<Step>)
    requires Inv(s)
    ensures Leads(s, steps, t) && |steps| <= 4 * |s.live|
    ensures Inv(t) && t.live == map[] && t.shared.tokens == 0 && t.shared.inflight == {}
    decreases |s.live|
  {
    if s.live == map[] {
      NothingLeft(s);
      t, steps := s, [];
    } else {
      var id :| id in s.live;
      var u, first := FinishOne(s, id);
      OneFewer(s, u, id);
      t, steps := Drains(u);
      LeadsOn(s, first, u, steps, t);
      steps := first + steps;
    }
  }

  /** What `get` reports as known was read from the registry, for that asset. */
  lemma KnownWasRead(run: seq<Sys>, steps: seq<Step>, k: nat, key: Key)
    requires Run(run, steps) && k < |run| && key in run[k].shared.got
    ensures (key, run[k].shared.got[key].f) in run[k].answers
  {
    RunKeepsInv(run, steps, k);
  }

  // ---------------------------------------------------------------- when a refresh starts

  /** Step m puts a reading of `key` on file: a refresh of it settles with one, or it is
      fetched. */
  ghost predicate Records(run: seq<Sys>, steps: seq<Step>, m: nat, key: Key, f: Funding)
    requires |run| == |steps| + 1
  {
    && m < |steps|
    && match steps[m]
       case Settle(id, _) => id in run[m].live && run[m].live[id] == Answered(key, Some(f))
       case Fetch(k, g, _) => k == key && g == f
       case _ => false
  }

  /** ... and no later step before n does. */
  ghost predicate RecordsLast(run: seq<Sys>, steps: seq<Step>, m: nat, n: nat, key: Key, f: Funding)
    requires |run| == |steps| + 1
  {
    && m < n && Records(run, steps, m, key, f)
    && forall i: nat, g: Funding :: m < i < n ==> !Records(run, steps, i, key, g)
  }

  /** What is on file for a key is the reading of the last step that recorded one, with
      that step's time; nothing is on file before the first. */
  lemma {:induction false} OnFileIsLatest(run: seq<Sys>, steps: seq<Step>, n: nat, key: Key) returns (m: nat)
    requires Run(run, steps) && n < |run|
    ensures key in run[n].shared.got ==>
      RecordsLast(run, steps, m, n, key, run[n].shared.got[key].f) && run[n].shared.got[key].at == steps[m].now
    ensures key !in run[n].shared.got ==> forall i: nat, g: Funding :: i < n ==> !Records(run, steps, i, key, g)
  {
    m := 0;
    if n > 0 {
      var st := steps[n - 1];
      assert Enabled(run[n - 1], st) && run[n] == Apply(run[n - 1], st);
      m := OnFileIsLatest(run, steps, n - 1, key);
      if st.Fetch? && st.key == key {
        m := n - 1;
        assert Records(run, steps, m, key, st.f);
      } else if st.Settle? && run[n - 1].live[st.id].key == key && run[n - 1].live[st.id].reply.Some? {
        m := n - 1;
        assert Records(run, steps, m, key, run[n - 1].live[st.id].reply.value);
      } else {
        assert forall g: Funding {:trigger Records(run, steps, n - 1, key, g)} :: !Records(run, steps, n - 1, key, g);
      }
    }
  }

  lemma {:induction false} WhereStarted(run: seq<Sys>, steps: seq<Step>, n: nat, id: nat) returns (i: nat)
    requires Run(run, steps) && n < |run| && id in run[n].live && run[n].live[id].Reading?
    ensures i < n && steps[i].Get? && steps[i].id == id && steps[i].key == run[n].live[id].key
  {
    assert n > 0;
    var st := steps[n - 1];
    assert Enabled(run[n - 1], st) && run[n] == Apply(run[n - 1], st);
    if id in run[n - 1].live { i := WhereStarted(run, steps, n - 1, id); } else { i := n - 1; }
  }

  /** A refresh settles with what its own read was answered. */
  lemma {:induction false} SettlesItsAnswer(run: seq<Sys>, steps: seq<Step>, n: nat, id: nat) returns (i: nat, j: nat)
    requires Run(run, steps) && n < |run| && id in run[n].live && run[n].live[id].Answered?
    ensures i < j < n && steps[i].Get? && steps[i].id == id && steps[i].key == run[n].live[id].key
    ensures steps[j] == Answer(id, run[n].live[id].reply)
  {
    assert n > 0;
    var st := steps[n - 1];
    assert Enabled(run[n - 1], st) && run[n] == Apply(run[n - 1], st);
    if st == Answer(id, run[n].live[id].reply) && !run[n - 1].live[id].Answered? {
      i := WhereStarted(run, steps, n - 1, id);
      j := n - 1;
    } else {
      i, j := SettlesItsAnswer(run, steps, n - 1, id);
    }
  }

  /** Two steps that record last are one. */
  lemma FreshIff(run: seq<Sys>, steps: seq<Step>, n: nat, key: Key, now: int, m: nat)
    requires Run(run, steps) && n < |run|
    requires key in run[n].shared.got ==>
      RecordsLast(run, steps, m, n, key, run[n].shared.got[key].f) && run[n].shared.got[key].at == steps[m].now
    requires key !in run[n].shared.got ==> forall i: nat, g: Funding :: i < n ==> !Records(run, steps, i, key, g)
    ensures Fresh(run[n].shared, key, now) <==>
      exists i: nat, f: Funding :: RecordsLast(run, steps, i, n, key, f) && now - steps[i].now < 300
  {
    if i: nat, f: Funding :| RecordsLast(run, steps, i, n, key, f) && now - steps[i].now < 300 {
      assert Records(run, steps, i, key, f);
      assert key in run[n].shared.got;
      assert Records(run, steps, m, key, run[n].shared.got[key].f);
      assert i == m;
    }
  }

  /** Refresh theorem. A Get makes its refresh live exactly when the key's latest reading is
      not within 300 seconds, no refresh of the key is yet to clear its mark, and fewer than
      four refreshes are live. */
  lemma RefreshStartsIff(run: seq<Sys>, steps: seq<Step>, n: nat, key: Key, now: int, id: nat)
    requires Run(run, steps) && n < |steps| && steps[n] == Get(key, now, id)
    ensures id in run[n + 1].live <==>
      && !(exists m: nat, f: Funding :: RecordsLast(run, steps, m, n, key, f) && now - steps[m].now < 300)
      && !(exists i: nat :: i in run[n].live && run[n].live[i].key == key && !run[n].live[i].Cleared?)
      && |run[n].live| < 4
    ensures id in run[n + 1].live ==> run[n + 1].live == run[n].live[id := Reading(key)]
    ensures id !in run[n + 1].live ==> run[n + 1] == run[n]
    ensures run[n + 1].shared.got == run[n].shared.got
  {
    var s := run[n];
    assert Enabled(s, steps[n]) && run[n + 1] == Apply(s, steps[n]);
    RunKeepsInv(run, steps, n);
    var m := OnFileIsLatest(run, steps, n, key);
    FreshIff(run, steps, n, key, now, m);
    assert key in s.shared.inflight <==> exists i: nat :: Marks(s, i) && s.live[i].key == key;
  }

  /** The mark and the token are given up apart: a key can have two live refreshes, one
      of them past clearing its mark, so tokens can outnumber marks. */
  lemma TwoRefreshesOfOneKey() returns (run: seq<Sys>, steps: seq<Step>)
    ensures Run(run, steps) && |run| == 6
    ensures 0 in run[5].live && 1 in run[5].live && run[5].live[0].key == run[5].live[1].key
    ensures run[5].shared.tokens == 2 && run[5].shared.inflight == {7}
  {
    steps := [Get(7, 0, 0), Answer(0, None), Settle(0, 0), Clear(0), Get(7, 1, 1)];
    var s0 := Sys(Shared(map[], {}, 0), map[], {}, map[]);
    var s1 := Apply(s0, steps[0]);
    var s2 := Apply(s1, steps[1]);
    var s3 := Apply(s2, steps[2]);
    var s4 := Apply(s3, steps[3]);
    var s5 := Apply(s4, steps[4]);
    run := [s0, s1, s2, s3, s4, s5];
    assert s4.shared.inflight == {};
  }

  // ---------------------------------------------------------------- the object

  /** fundingCache, with its critical sections as methods; each is one step. */
  class Cache {
    var got: map<Key, Entry>
    var inflight: set<Key>
    var tokens: nat

    function State(): Shared
      reads this
    {
      Shared(got, inflight, tokens)
    }

    constructor ()
      ensures Initial(Sys(State(), map[], {}, map[]))
    {
      got, inflight, tokens := map[], {}, 0;
    }

    /** get: answer from what is known; `start` says a refresh must be spawned. */
    method Get(key: Key, now: int) returns (known: Option<Funding>, start: bool)
      modifies this
      ensures State() == AfterGet(old(State()), key, now)
      ensures start == Starts(old(State()), key, now)
      ensures known == if key in old(got) then Some(old(got)[key].f) else None
    {
      known := None;
      var recent := false;
      if key in got {
        known := Some(got[key].f);
        recent := now - got[key].at < TTL;
      }
      start := !recent && key !in inflight;
      if start {
        if tokens < WORKERS {
          tokens := tokens + 1;
          inflight := inflight + {key};
        } else {
          start := false;
        }
      }
    }

    method Put(key: Key, f: Funding, now: int)
      modifies this
      ensures State() == AfterPut(old(State()), key, f, now)
    {
      got := got[key := Entry(f, now)];
    }

    /** The deferred tail of refresh: drop the mark under the lock ... */
    method ClearMark(key: Key)
      modifies this
      ensures State() == old(State()).(inflight := old(inflight) - {key})
    {
      inflight := inflight - {key};
    }

    /** ... then take the token back out of the semaphore. */
    method ReleaseToken()
      requires tokens > 0
      modifies this
      ensures State() == old(State()).(tokens := old(tokens) - 1)
    {
      tokens := tokens - 1;
    }
  }
}
