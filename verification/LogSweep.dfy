/** The adaptive eth_getLogs sweep (internal/chain/source.go): a block range read in
    windows that halve when the provider objects and double when it does not. */
module LogSweep {
  import opened Bytes

  /** A log entry; nothing here looks inside one. */
  type Log = int

  /** A getLogs reply. isRangeLimit has already told a limit from any other error. */
  datatype Reply = Logs(logs: seq<Log>) | RangeLimit | Broken

  /** Call number and inclusive range to reply. */
  type Source = (nat, nat, nat) -> Reply

  datatype Window = Window(from: nat, to: nat, logs: seq<Log>)
  {
    function Span(): int { to + 1 - from }
  }

  /** `Refused` is an error from the caller's own function. */
  datatype Result = Done | Cancelled | Failed(from: nat, to: nat) | Refused

  datatype Chunks = Chunks(max: nat, min: nat)
  {
    /** ChunkOpts.withDefaults. */
    function Defaults(): (c: Chunks)
      ensures 1 <= c.min <= c.max
      ensures c.max == max || (max == 0 && c.max == 10000)
      ensures c.min == min || (min == 0 && c.min == 1) || (min > c.max && c.min == c.max)
      ensures 1 <= min <= max ==> c == this
    {
      var hi := if max == 0 then 10_000 else max;
      var lo := if min == 0 then 1 else min;
      Chunks(hi, if lo > hi then hi else lo)
    }
  }

  /** The uint64 sum or double of two uint64 values. */
  function Wrap(n: nat): nat
    requires n < 2 * TWO64
  {
    if n < TWO64 then n else n - TWO64
  }

  /** The upper end of a window, in the uint64 arithmetic of the loop. */
  function WindowEnd(cursor: nat, window: nat, to: nat): int
    requires cursor < TWO64 && 0 < window < TWO64
  {
    var end := Wrap(cursor + window - 1);
    if end > to then to else end
  }

  /** The window never ends before it begins exactly when To + window fits. */
  lemma WindowEndAhead(window: nat, from: nat, to: nat)
    requires 0 < window < TWO64 && from <= to < TWO64
    ensures (forall c: nat :: from <= c <= to ==> c <= WindowEnd(c, window, to)) <==> to + window <= TWO64
  {
    if to + window > TWO64 {
      assert WindowEnd(to, window, to) < to;
    }
  }

  /** The windows cover [a, b) in ascending order without gap or overlap. */
  ghost predicate Tiles(ws: seq<Window>, a: int, b: int)
  {
    if ws == [] then a == b
    else
      var w := ws[|ws| - 1];
      w.from <= w.to && w.to + 1 == b && Tiles(ws[..|ws| - 1], a, w.from)
  }

  /** The logs of [a, b), block by block. */
  ghost function Range(ledger: nat -> seq<Log>, a: nat, b: nat): seq<Log>
    decreases b
  {
    if b <= a then [] else Range(ledger, a, b - 1) + ledger(b - 1)
  }

  ghost function Delivered(ws: seq<Window>): seq<Log>
  {
    if ws == [] then [] else Delivered(ws[..|ws| - 1]) + ws[|ws| - 1].logs
  }

  /** A source whose answers, when it answers, are the ledger's. */
  ghost predicate Truthful(src: Source, ledger: nat -> seq<Log>)
  {
    forall i: nat, a: nat, b: nat :: src(i, a, b).Logs? ==> src(i, a, b).logs == Range(ledger, a, b + 1)
  }

  lemma {:induction false} RangeSplits(ledger: nat -> seq<Log>, a: nat, b: nat, c: nat)
    requires a <= b <= c
    ensures Range(ledger, a, c) == Range(ledger, a, b) + Range(ledger, b, c)
    decreases c
  {
    if b < c { RangeSplits(ledger, a, b, c - 1); }
  }

  /** Tiling means every block of the range lies in exactly one window. */
  lemma {:induction false} TilesPartition(ws: seq<Window>, a: int, b: int, n: int)
    requires Tiles(ws, a, b)
    ensures a <= b
    ensures a <= n < b <==> exists k :: 0 <= k < |ws| && ws[k].from <= n <= ws[k].to
    ensures forall j, k :: 0 <= j < k < |ws| ==> ws[j].to < ws[k].from
    ensures forall k :: 0 <= k < |ws| ==> a <= ws[k].from <= ws[k].to < b
  {
    if ws != [] {
      var w, rest := ws[|ws| - 1], ws[..|ws| - 1];
      TilesPartition(rest, a, w.from, n);
      if w.from <= n <= w.to {
        assert ws[|ws| - 1].from <= n <= ws[|ws| - 1].to;
      } else if a <= n < b {
        var k :| 0 <= k < |rest| && rest[k].from <= n <= rest[k].to;
        assert ws[k] == rest[k];
      }
      assert forall k :: 0 <= k < |rest| ==> ws[k] == rest[k];
    }
  }

  /** Failed halvings it takes to bring a window down to the minimum. */
  function Halvings(window: nat, min: nat): nat
    requires min >= 1
    decreases window
  {
    if window <= min then 0 else 1 + Halvings(Half(window, min), min)
  }

  function Half(window: nat, min: nat): nat
  {
    if window / 2 < min then min else window / 2
  }

  lemma {:induction false} HalvingsMonotone(u: nat, w: nat, min: nat)
    requires min >= 1 && u <= w
    ensures Halvings(u, min) <= Halvings(w, min)
    decreases w
  {
    if u > min { HalvingsMonotone(Half(u, min), Half(w, min), min); }
  }

  /** The window after a delivery. */
  function Grow(window: nat, c: Chunks): nat
    requires c.max < TWO64
  {
    if window < c.max then (if Wrap(window * 2) > c.max then c.max else Wrap(window * 2)) else window
  }

  /** One doubling buys back at most one halving. */
  lemma GrowCost(window: nat, c: Chunks)
    requires 1 <= c.min <= window <= c.max && 2 * c.max < TWO64
    ensures c.min <= Grow(window, c) <= c.max
    ensures Halvings(Grow(window, c), c.min) <= Halvings(window, c.min) + 1
  {
    HalvingsMonotone(Grow(window, c), window * 2, c.min);
    assert Half(window * 2, c.min) == window;
  }

  lemma {:induction false} HalvingsMeaning(window: nat, min: nat)
    requires 1 <= min <= window
    ensures Halvings(window, min) > 0 ==> window > min
    ensures min * Pow2(Halvings(window, min)) <= 2 * window
  {
    if window > min {
      var h := Half(window, min);
      HalvingsMeaning(h, min);
      var k := Halvings(h, min);
      assert Pow2(k + 1) == 2 * Pow2(k);
      if h == min {
        assert k == 0;
      } else {
        assert 2 * h <= window;
        assert min * Pow2(k + 1) == 2 * (min * Pow2(k));
      }
    }
  }

  // ---------------------------------------------------------------- recovery

  /** Deliveries it takes to bring a window back up to the maximum. */
  function Doublings(window: nat, max: nat): nat
    requires window >= 1
    decreases max - window
  {
    if window >= max then 0 else 1 + Doublings(2 * window, max)
  }

  lemma {:induction false} DoublingsMonotone(u: nat, w: nat, max: nat)
    requires 1 <= u <= w
    ensures Doublings(w, max) <= Doublings(u, max)
    decreases max - u
  {
    if w < max { DoublingsMonotone(2 * u, 2 * w, max); }
  }

  lemma HalfDoublings(window: nat, c: Chunks)
    requires 1 <= c.min < window <= c.max
    ensures Half(window, c.min) >= 1
    ensures Doublings(Half(window, c.min), c.max) <= Doublings(window, c.max) + 2
  {
    var h := Half(window, c.min);
    DoublingsMonotone(window, 4 * h, c.max);
    assert Doublings(2 * h, c.max) <= 1 + Doublings(4 * h, c.max);
  }

  lemma GrowDoublings(window: nat, c: Chunks)
    requires 1 <= window <= c.max && 2 * c.max < TWO64
    ensures Grow(window, c) >= 1
    ensures Doublings(window, c.max) == Doublings(Grow(window, c), c.max) + (if window < c.max then 1 else 0)
  {}

  /** How many windows fell short of the maximum. */
  ghost function Short(ws: seq<Window>, max: nat): nat
  {
    if ws == [] then 0
    else Short(ws[..|ws| - 1], max) + (if ws[|ws| - 1].Span() < max then 1 else 0)
  }

  lemma ShortOneMore(ws: seq<Window>, w: Window, max: nat)
    ensures Short(ws + [w], max) == Short(ws, max) + (if w.Span() < max then 1 else 0)
  {
    assert (ws + [w])[..|ws + [w]| - 1] == ws;
  }

  /** The two accounts the loop keeps, after `calls` calls and `n` windows of which
      `short` fell short: halvings are paid for by deliveries, short windows by halvings. */
  ghost predicate Books(short: nat, n: nat, calls: int, window: nat, c: Chunks, ended: bool)
  {
    && 1 <= c.min <= window <= c.max && n <= calls
    && calls + Halvings(window, c.min) <= 2 * n + Halvings(c.max, c.min)
    && short + Doublings(window, c.max) <= 2 * (calls - n) + (if ended then 1 else 0)
  }

  lemma BooksDeliver(short: nat, short': nat, n: nat, calls: int, window: nat, c: Chunks, ended: bool)
    requires Books(short, n, calls, window, c, false) && 2 * c.max < TWO64
    requires short' == short || (short' == short + 1 && (window < c.max || ended))
    ensures Books(short', n + 1, calls + 1, Grow(window, c), c, ended)
  {
    GrowCost(window, c);
    GrowDoublings(window, c);
  }

  lemma BooksHalve(short: nat, n: nat, calls: int, window: nat, c: Chunks)
    requires Books(short, n, calls, window, c, false) && window > c.min
    ensures Books(short, n, calls + 1, Half(window, c.min), c, false)
  {
    HalfDoublings(window, c);
  }

  /** A window within the configured sizes: never over the maximum, and under the
      minimum only where the range ends. */
  predicate Fits(w: Window, c: Chunks, to: nat)
  {
    w.Span() <= c.max && (w.to < to ==> w.Span() >= c.min)
  }

  /** What the loop knows of the windows handed over: they tile [from, next), each of
      them fits and, from a truthful source, carries its own range's logs. */
  ghost predicate Handed(
    ws: seq<Window>, from: nat, next: nat, truthful: bool, ledger: nat -> seq<Log>, c: Chunks, to: nat)
  {
    if ws == [] then from == next
    else
      var w := ws[|ws| - 1];
      && from <= w.from <= w.to && w.to + 1 == next && Fits(w, c, to)
      && (truthful ==> w.logs == Range(ledger, w.from, w.to + 1))
      && Handed(ws[..|ws| - 1], from, w.from, truthful, ledger, c, to)
  }

  /** So together they are what one query of the whole of [from, next) would return. */
  lemma {:induction false} HandedRefines(
    ws: seq<Window>, from: nat, next: nat, truthful: bool, ledger: nat -> seq<Log>, c: Chunks, to: nat)
    requires Handed(ws, from, next, truthful, ledger, c, to)
    ensures Tiles(ws, from, next)
    ensures truthful ==> Delivered(ws) == Range(ledger, from, next)
    ensures forall k :: 0 <= k < |ws| ==> Fits(ws[k], c, to)
  {
    if ws != [] {
      var rest, w := ws[..|ws| - 1], ws[|ws| - 1];
      HandedRefines(rest, from, w.from, truthful, ledger, c, to);
      RangeSplits(ledger, from, w.from, next);
      forall k | 0 <= k < |ws| ensures Fits(ws[k], c, to) {
        if k < |rest| { assert ws[k] == rest[k]; }
      }
    }
  }

  lemma HandedOneMore(
    ws: seq<Window>, w: Window, from: nat, truthful: bool, ledger: nat -> seq<Log>, c: Chunks, to: nat)
    requires Handed(ws, from, w.from, truthful, ledger, c, to)
    requires from <= w.from <= w.to && Fits(w, c, to)
    requires truthful ==> w.logs == Range(ledger, w.from, w.to + 1)
    ensures Handed(ws + [w], from, w.to + 1, truthful, ledger, c, to)
  {
    assert (ws + [w])[..|ws + [w]| - 1] == ws;
  }

  /** Everything the loop knows: the windows so far, and what they cost. */
  ghost predicate Progress(
    ws: seq<Window>, from: nat, next: nat, truthful: bool, ledger: nat -> seq<Log>, c: Chunks, to: nat,
    paid: int, size: nat)
  {
    && Handed(ws, from, next, truthful, ledger, c, to)
    && Books(Short(ws, c.max), |ws|, paid, size, c, next > to)
  }

  lemma ProgressDeliver(
    ws: seq<Window>, w: Window, from: nat, truthful: bool, ledger: nat -> seq<Log>, c: Chunks, to: nat,
    paid: int, size: nat)
    requires Progress(ws, from, w.from, truthful, ledger, c, to, paid, size)
    requires from <= w.from <= to && 2 * c.max < TWO64
    requires w.to == if w.from + size - 1 > to then to else w.from + size - 1
    requires truthful ==> w.logs == Range(ledger, w.from, w.to + 1)
    ensures Progress(ws + [w], from, w.to + 1, truthful, ledger, c, to, paid + 1, Grow(size, c))
  {
    HandedOneMore(ws, w, from, truthful, ledger, c, to);
    ShortOneMore(ws, w, c.max);
    BooksDeliver(Short(ws, c.max), Short(ws + [w], c.max), |ws|, paid, size, c, w.to == to);
  }

  lemma ProgressHalve(
    ws: seq<Window>, from: nat, next: nat, truthful: bool, ledger: nat -> seq<Log>, c: Chunks, to: nat,
    paid: int, size: nat)
    requires Progress(ws, from, next, truthful, ledger, c, to, paid, size) && size > c.min && next <= to
    ensures Progress(ws, from, next, truthful, ledger, c, to, paid + 1, Half(size, c.min))
  {
    BooksHalve(Short(ws, c.max), |ws|, paid, size, c);
  }

  /** One getLogs call over the window at `next`. */
  method Ask(
    src: Source, call: nat, next: nat, size: nat, to: nat, ghost truthful: bool, ghost ledger: nat -> seq<Log>)
    returns (end: nat, reply: Reply)
    requires next <= to && 1 <= size && to + size < TWO64 && (truthful ==> Truthful(src, ledger))
    ensures end == if next + size - 1 > to then to else next + size - 1
    ensures reply == src(call, next, end)
    ensures truthful && reply.Logs? ==> reply.logs == Range(ledger, next, end + 1)
  {
    EndFits(next, size, to);
    end := WindowEnd(next, size, to);
    reply := src(call, next, end);
  }

  // ---------------------------------------------------------------- why a sweep ends

  /** A range the source was asked for. */
  datatype Query = Query(from: nat, to: nat)

  /** The windows among the first n queries: exactly those answered with logs, each with
      the logs it was answered with. */
  ghost function Answered(src: Source, asked: seq<Query>): seq<Window>
  {
    if asked == [] then []
    else
      var k, q := |asked| - 1, asked[|asked| - 1];
      var r := src(k, q.from, q.to);
      Answered(src, asked[..k]) + (if r.Logs? then [Window(q.from, q.to, r.logs)] else [])
  }

  /** Query k was answered with logs, or with a range limit before any cancellation: the
      only two answers a sweep goes on after. */
  ghost predicate WentOn(src: Source, cancelled: nat -> bool, asked: seq<Query>, k: nat)
    requires k < |asked|
  {
    var r := src(k, asked[k].from, asked[k].to);
    r.Logs? || (r.RangeLimit? && !cancelled(k + 1))
  }

  /** How the last query decides the result. */
  ghost predicate Decides(
    src: Source, cancelled: nat -> bool, accepts: nat -> bool, min: nat, asked: seq<Query>, n: nat, result: Result)
  {
    && (asked == [] ==> result.Done?)
    && (asked != [] ==>
          var k, q := |asked| - 1, asked[|asked| - 1];
          var r := src(k, q.from, q.to);
          match result
          case Done => WentOn(src, cancelled, asked, k) && (n > 0 && r.Logs? ==> accepts(n - 1))
          case Refused => r.Logs? && n > 0 && !accepts(n - 1)
          case Cancelled => !r.Logs? && cancelled(|asked|)
          case Failed(a, b) => !r.Logs? && !cancelled(|asked|) && q == Query(a, b)
                               && (r.RangeLimit? ==> b + 1 - a <= min))
  }

  /** The queries so far, the windows they gave, and the result they led to. */
  ghost predicate Story(
    src: Source, cancelled: nat -> bool, accepts: nat -> bool, min: nat, asked: seq<Query>, ws: seq<Window>,
    result: Result)
  {
    && ws == Answered(src, asked)
    && (forall k :: 0 <= k < |asked| - 1 ==> WentOn(src, cancelled, asked, k))
    && (forall k :: 0 <= k < |ws| - 1 ==> accepts(k))
    && (!result.Refused? && ws != [] ==> accepts(|ws| - 1))
    && Decides(src, cancelled, accepts, min, asked, |ws|, result)
  }

  /** One more query onto a story that has not ended. */
  lemma StoryGoesOn(
    src: Source, cancelled: nat -> bool, accepts: nat -> bool, min: nat, asked: seq<Query>, ws: seq<Window>,
    q: Query, r: Reply, ws': seq<Window>, result: Result)
    requires Story(src, cancelled, accepts, min, asked, ws, Done) && r == src(|asked|, q.from, q.to)
    requires ws' == if r.Logs? then ws + [Window(q.from, q.to, r.logs)] else ws
    requires r.Logs? ==> result == if accepts(|ws|) then Done else Refused
    requires !r.Logs? && cancelled(|asked| + 1) ==> result == Cancelled
    requires !r.Logs? && !cancelled(|asked| + 1) ==>
      || (result == Done && r.RangeLimit?)
      || (result == Failed(q.from, q.to) && (r.RangeLimit? ==> q.to + 1 - q.from <= min))
    ensures Story(src, cancelled, accepts, min, asked + [q], ws', result)
  {
    var more := asked + [q];
    assert more[..|more| - 1] == asked;
    forall k | 0 <= k < |asked| ensures WentOn(src, cancelled, more, k) {
      assert WentOn(src, cancelled, asked, k);
    }
  }

  /** A source that only ever answers with logs or a range limit, and always with logs for
      a range no wider than the minimum. */
  ghost predicate Obliging(src: Source, min: nat)
  {
    forall i: nat, a: nat, b: nat ::
      !src(i, a, b).Broken? && (b + 1 - a <= min ==> src(i, a, b).Logs?)
  }

  /** Where the loop stands. */
  datatype State = State(ws: seq<Window>, next: nat, size: nat, calls: nat)

  /** What a reply makes of the cursor, the window and the sweep. `accepted` is whether the
      caller's function takes these logs, `cancelled` whether the context is cancelled. */
  method React(
    reply: Reply, end: nat, cancelled: bool, accepted: bool,
    from: nat, to: nat, c: Chunks, ghost truthful: bool, ghost ledger: nat -> seq<Log>, s: State)
    returns (result: Result, t: State, ghost paid: nat)
    requires from <= s.next <= to && 1 <= c.min <= s.size <= c.max && 2 * c.max < TWO64
    requires end == if s.next + s.size - 1 > to then to else s.next + s.size - 1
    requires truthful && reply.Logs? ==> reply.logs == Range(ledger, s.next, end + 1)
    requires Progress(s.ws, from, s.next, truthful, ledger, c, to, s.calls, s.size)
    ensures s.next <= t.next <= to + 1 && t.calls == s.calls + 1
    ensures t.next == s.next && result.Done? ==> t.size < s.size
    ensures Progress(t.ws, from, t.next, truthful, ledger, c, to, paid, t.size)
    ensures paid == t.calls || (paid + 1 == t.calls && !result.Done?)
    ensures t.ws == if reply.Logs? then s.ws + [Window(s.next, end, reply.logs)] else s.ws
    ensures !reply.Logs? ==> t.next == s.next
    ensures result == if reply.Logs? then (if accepted then Done else Refused)
                      else if cancelled then Cancelled
                      else if reply.RangeLimit? && s.size > c.min then Done
                      else Failed(s.next, end)
  {
    var calls := s.calls + 1;
    t, paid := s.(calls := calls), s.calls;
    if reply.Logs? {
      var w := Window(s.next, end, reply.logs);
      ProgressDeliver(s.ws, w, from, truthful, ledger, c, to, s.calls, s.size);
      t, paid := State(s.ws + [w], end + 1, Grow(s.size, c), calls), calls;
      result := if accepted then Done else Refused;
    } else if cancelled {
      result := Cancelled;
    } else if s.size > c.min && reply.RangeLimit? {
      ProgressHalve(s.ws, from, s.next, truthful, ledger, c, to, s.calls, s.size);
      t, paid := t.(size := Half(s.size, c.min)), calls;
      result := Done;
    } else {
      result := Failed(s.next, end);
    }
  }

  /** One turn of the loop. `accepts(k)` is whether the caller's function takes the k-th
      window, `cancelled(k)` whether the context is found cancelled after k calls. */
  method Turn(
    src: Source, cancelled: nat -> bool, accepts: nat -> bool,
    from: nat, to: nat, c: Chunks, ghost truthful: bool, ghost ledger: nat -> seq<Log>, s: State,
    ghost asked: seq<Query>)
    returns (result: Result, t: State, ghost paid: nat, ghost q: Query)
    requires from <= s.next <= to && 1 <= c.min <= s.size <= c.max && to + c.max < TWO64 && 2 * c.max < TWO64
    requires truthful ==> Truthful(src, ledger)
    requires Progress(s.ws, from, s.next, truthful, ledger, c, to, s.calls, s.size)
    requires |asked| == s.calls && Story(src, cancelled, accepts, c.min, asked, s.ws, Done)
    ensures s.next <= t.next <= to + 1 && t.calls == s.calls + 1
    ensures t.next == s.next && result.Done? ==> t.size < s.size
    ensures Progress(t.ws, from, t.next, truthful, ledger, c, to, paid, t.size)
    ensures paid == t.calls || (paid + 1 == t.calls && !result.Done?)
    ensures Story(src, cancelled, accepts, c.min, asked + [q], t.ws, result)
    ensures result.Failed? ==> result.from == t.next
  {
    var end, reply := Ask(src, s.calls, s.next, s.size, to, truthful, ledger);
    result, t, paid := React(reply, end, cancelled(s.calls + 1), accepts(|s.ws|),
                             from, to, c, truthful, ledger, s);
    q := Query(s.next, end);
    StoryGoesOn(src, cancelled, accepts, c.min, asked, s.ws, q, reply, t.ws, result);
  }

  /** The loop of SweepLogs. `paid` counts the calls but for a last one that failed. */
  method SweepWindows(
    src: Source, cancelled: nat -> bool, accepts: nat -> bool,
    from: nat, to: nat, c: Chunks, ghost truthful: bool, ghost ledger: nat -> seq<Log>)
    returns (result: Result, s: State, ghost paid: nat, ghost asked: seq<Query>)
    requires from <= to && 1 <= c.min <= c.max && to + c.max < TWO64 && 2 * c.max < TWO64
    requires truthful ==> Truthful(src, ledger)
    ensures from <= s.next <= to + 1 && (result.Done? ==> s.next == to + 1)
    ensures Progress(s.ws, from, s.next, truthful, ledger, c, to, paid, s.size)
    ensures paid == s.calls || (paid + 1 == s.calls && !result.Done?)
    ensures |asked| == s.calls && Story(src, cancelled, accepts, c.min, asked, s.ws, result)
    ensures result.Failed? ==> result.from == s.next
  {
    result, s, paid, asked := Done, State([], from, c.max, 0), 0, [];
    while result.Done? && s.next <= to
      invariant from <= s.next <= to + 1
      invariant Progress(s.ws, from, s.next, truthful, ledger, c, to, paid, s.size)
      invariant paid == s.calls || (paid + 1 == s.calls && !result.Done?)
      invariant |asked| == s.calls && Story(src, cancelled, accepts, c.min, asked, s.ws, result)
      invariant result.Failed? ==> result.from == s.next
      decreases result.Done?, 1 + to - s.next, s.size
    {
      ghost var q;
      result, s, paid, q := Turn(src, cancelled, accepts, from, to, c, truthful, ledger, s, asked);
      asked := asked + [q];
    }
  }

  /** SweepLogs. */
  method SweepLogs(
    src: Source, cancelled: nat -> bool, accepts: nat -> bool,
    from: nat, to: nat, opts: Chunks, ghost ledger: nat -> seq<Log>)
    returns (result: Result, ws: seq<Window>, next: nat, calls: nat, ghost asked: seq<Query>)
    requires to + opts.Defaults().max < TWO64 && 2 * opts.Defaults().max < TWO64
    // The whole range on success, a prefix of it otherwise.
    ensures Tiles(ws, from, next)
    ensures Truthful(src, ledger) ==> Delivered(ws) == Range(ledger, from, next)
    ensures result.Done? ==> next == if from <= to then to + 1 else from
    ensures from <= to ==> next <= to + 1
    ensures forall k :: 0 <= k < |ws| ==>
      && ws[k].to + 1 - ws[k].from <= opts.Defaults().max
      && (ws[k].to < to ==> ws[k].to + 1 - ws[k].from >= opts.Defaults().min)
    // Amortised cost.
    ensures calls <= 2 * |ws| + Halvings(opts.Defaults().max, opts.Defaults().min)
                     + (if result.Done? then 0 else 1)
    // One hot window does not slow the rest: short windows are paid for by failed calls.
    ensures Short(ws, opts.Defaults().max) <= 2 * (calls - |ws|) + 1
    // The sweep ends as its last query decides, and goes on after every other one.
    ensures |asked| == calls && Story(src, cancelled, accepts, opts.Defaults().min, asked, ws, result)
    ensures result.Refused? <==> ws != [] && !accepts(|ws| - 1)
    ensures forall k :: 0 <= k < |ws| && (k < |ws| - 1 || !result.Refused?) ==> accepts(k)
    ensures result.Cancelled? ==> calls > 0 && cancelled(calls)
    ensures result.Failed? ==> calls > 0 && !cancelled(calls) && result.from == next
                               && !src(calls - 1, next, result.to).Logs?
                               && (src(calls - 1, next, result.to).RangeLimit? ==>
                                     result.to + 1 - next <= opts.Defaults().min)
    // Progress: an undisturbed sweep of an obliging source gets to the end.
    ensures (forall k: nat :: !cancelled(k) && accepts(k)) && Obliging(src, opts.Defaults().min) ==> result.Done?
  {
    var c := opts.Defaults();
    ghost var truthful, paid := Truthful(src, ledger), 0;
    result, ws, next, calls, asked := Done, [], from, 0, [];
    if from <= to {
      var s: State;
      result, s, paid, asked := SweepWindows(src, cancelled, accepts, from, to, c, truthful, ledger);
      ws, next, calls := s.ws, s.next, s.calls;
    }
    HandedRefines(ws, from, next, truthful, ledger, c, to);
    StoryEnds(src, cancelled, accepts, c.min, asked, ws, result);
  }

  lemma StoryEnds(
    src: Source, cancelled: nat -> bool, accepts: nat -> bool, min: nat, asked: seq<Query>, ws: seq<Window>,
    result: Result)
    requires Story(src, cancelled, accepts, min, asked, ws, result)
    ensures result.Refused? <==> ws != [] && !accepts(|ws| - 1)
    ensures forall k :: 0 <= k < |ws| && (k < |ws| - 1 || !result.Refused?) ==> accepts(k)
    ensures result.Cancelled? ==> asked != [] && cancelled(|asked|)
    ensures result.Failed? ==>
      && asked != [] && !cancelled(|asked|)
      && !src(|asked| - 1, result.from, result.to).Logs?
      && (src(|asked| - 1, result.from, result.to).RangeLimit? ==> result.to + 1 - result.from <= min)
    ensures (forall k: nat :: !cancelled(k) && accepts(k)) && Obliging(src, min) ==> result.Done?
  {}

  lemma EndFits(cursor: nat, window: nat, to: nat)
    requires 0 < window < TWO64 && cursor <= to && to + window <= TWO64
    ensures WindowEnd(cursor, window, to) == if cursor + window - 1 > to then to else cursor + window - 1
  {}
}
