/** Whole runs of the sampler. In every interleaving a trace under judgement, or
    under a verdict still remembered, gets no second verdict, and its spans
    follow the one it got. */
module Runs {
  import opened Trace
  import opened Verdicts
  import opened Sampling
  import opened Conservation
  import opened Sorting
  import B = Buckets

  // ------------------------------------------------------- verdict memory

  /** The memory is the latest verdicts of a suffix of all verdicts. */
  ghost predicate MemoryIsSuffix(w: World) {
    exists k :: 0 <= k <= |w.log| && Remembers(w.s.verdicts, w.log[k..])
  }

  /** Verdicts are logged in time, none from the future. */
  ghost predicate LogInTime(w: World) {
    && (forall i, j :: 0 <= i < j < |w.log| ==> w.log[i].at <= w.log[j].at)
    && (forall i :: 0 <= i < |w.log| ==> w.log[i].at <= w.clock)
  }

  /** A trace that is buffered or judged again has a verdict only if it is out
      of date. */
  ghost predicate OnlyStaleVerdicts(cfg: Config, w: World) {
    forall id :: id in w.s.verdicts.decided && (id in w.s.pending || id in w.s.judging) ==>
      w.s.verdicts.decided[id].at + cfg.remember <= w.clock
  }

  ghost predicate Recalls(cfg: Config, w: World) {
    && MemoryIsSuffix(w) && LogInTime(w) && OnlyStaleVerdicts(cfg, w)
    && (if cfg.remember == 0 then w.s.verdicts == Verdicts(map[], [])
        else |w.s.verdicts.decided| <= cfg.maxDecisions)
  }

  ghost predicate Good(cfg: Config, w: World) {
    cfg.Valid() && Accounted(cfg, w) && Recalls(cfg, w) && w.reading <= w.clock
  }

  lemma {:induction false} LatestOfSuffix(log: seq<Settled>, k: nat, id: TraceID)
    requires k <= |log| && id in Latest(log[k..])
    ensures id in Latest(log) && Latest(log)[id] == Latest(log[k..])[id]
    decreases |log|
  {
    var n := |log| - 1;
    assert log[k..][..n - k] == log[..n][k..];
    assert log[k..][n - k] == log[n];
    if log[n].id != id {
      LatestOfSuffix(log[..n], k, id);
    }
  }

  lemma FewerVerdicts(log: seq<Settled>, k: nat)
    requires k <= |log|
    ensures |Latest(log[k..])| <= |Latest(log)|
  {
    forall id | id in Latest(log[k..])
      ensures id in Latest(log)
    {
      LatestOfSuffix(log, k, id);
    }
    SubsetSize(Latest(log[k..]).Keys, Latest(log).Keys);
  }

  /** What forgetting leaves of the memory. */
  lemma ForgetRecalls(cfg: Config, w: World, now: int)
    requires Recalls(cfg, w) && cfg.Valid()
    ensures var t := AfterForget(cfg, w, now);
            && Recalls(cfg, t)
            && (forall id :: id in t.s.verdicts.decided ==>
                  id in w.s.verdicts.decided && t.s.verdicts.decided[id] == w.s.verdicts.decided[id])
  {
    hide Remembers, LogInTime, Latest, B.Swept;
    var t := AfterForget(cfg, w, now);
    var k :| 0 <= k <= |w.log| && Remembers(w.s.verdicts, w.log[k..]);
    var window := w.log[k..];
    var j := ExpiredIsRemembered(w.s.verdicts, window, now, cfg.remember);
    assert window[j..] == w.log[k + j..];
    DecidedIs(w.s.verdicts, window);
    DecidedIs(t.s.verdicts, window[j..]);
    FewerVerdicts(window, j);
    forall id | id in t.s.verdicts.decided
      ensures id in w.s.verdicts.decided && t.s.verdicts.decided[id] == w.s.verdicts.decided[id]
    {
      LatestOfSuffix(window, j, id);
    }
    assert LogInTime(t) by { TimeIsKept(w, t); }
  }

  lemma TimeIsKept(w: World, t: World)
    requires LogInTime(w) && t.log == w.log && t.clock >= w.clock
    ensures LogInTime(t)
  {
  }

  lemma DecidedIs(v: Verdicts, window: seq<Settled>)
    requires Remembers(v, window)
    ensures v.decided == Latest(window) && InOrder(window)
  {
  }

  /** What settling a verdict makes of the memory: the new verdict is in it, and
      the rest of it was there before. */
  lemma SettleRemembers(cfg: Config, w: World, id: TraceID, keep: bool)
    requires Recalls(cfg, w) && cfg.Valid() && cfg.remember > 0 && id in w.s.judging
    ensures var v := Trimmed(Noted(w.s.verdicts, id, keep, w.clock), cfg.maxDecisions);
            var log := w.log + [Settled(id, keep, w.clock)];
            && (exists k :: 0 <= k <= |log| && Remembers(v, log[k..]))
            && |v.decided| <= cfg.maxDecisions
            && id in v.decided && v.decided[id] == Decision(keep, w.clock)
            && (forall x :: x in v.decided && x != id ==>
                  x in w.s.verdicts.decided && v.decided[x] == w.s.verdicts.decided[x])
  {
    hide Remembers, LogInTime, MemoryIsSuffix, InOrder, Latest, Trimmed, Noted, OnlyStaleVerdicts;
    var s := Settled(id, keep, w.clock);
    var log := w.log + [s];
    var k := WindowOf(w);
    var window := w.log[k..];
    DecidedIs(w.s.verdicts, window);
    OldVerdictsAreOlder(cfg, w, window, id);
    var j := SettleWindow(w.s.verdicts, window, s, cfg.maxDecisions);
    assert (window + [s])[j..] == log[k + j..];
  }

  lemma WindowOf(w: World) returns (k: nat)
    requires MemoryIsSuffix(w) && LogInTime(w)
    ensures k <= |w.log| && Remembers(w.s.verdicts, w.log[k..])
    ensures forall i :: 0 <= i < |w.log[k..]| ==> w.log[k..][i].at <= w.clock
  {
    hide Remembers;
    k :| 0 <= k <= |w.log| && Remembers(w.s.verdicts, w.log[k..]);
  }

  lemma SettleWindow(v: Verdicts, window: seq<Settled>, s: Settled, max: int) returns (j: nat)
    requires Remembers(v, window) && max >= 1
    requires forall i :: 0 <= i < |window| ==> window[i].at <= s.at && (window[i].id == s.id ==> window[i].at < s.at)
    ensures var v' := Trimmed(Noted(v, s.id, s.keep, s.at), max);
            && j <= |window| && Remembers(v', (window + [s])[j..])
            && |v'.decided| <= max
            && s.id in v'.decided && v'.decided[s.id] == Decision(s.keep, s.at)
            && (forall x :: x in v'.decided && x != s.id ==> x in v.decided && v'.decided[x] == v.decided[x])
  {
    var noted, more := Noted(v, s.id, s.keep, s.at), window + [s];
    NotedIsRemembered(v, window, s);
    hide Remembers, Latest;
    j := TrimmedIsRemembered(noted, more, max);
    var v' := Trimmed(noted, max);
    DecidedIs(noted, more);
    DecidedIs(v', more[j..]);
    LastIsLatest(more[j..]);
    assert more[j..][|more| - j - 1] == s;
    forall x | x in v'.decided && x != s.id
      ensures x in v.decided && v'.decided[x] == v.decided[x]
    {
      LatestOfSuffix(more, j, x);
    }
  }

  lemma LastIsLatest(log: seq<Settled>)
    requires log != []
    ensures var s := log[|log| - 1]; s.id in Latest(log) && Latest(log)[s.id] == Decision(s.keep, s.at)
  {
  }

  /** A trace judged again is judged strictly later than before. */
  lemma OldVerdictsAreOlder(cfg: Config, w: World, window: seq<Settled>, id: TraceID)
    requires OnlyStaleVerdicts(cfg, w) && cfg.remember > 0 && id in w.s.judging
    requires w.s.verdicts.decided == Latest(window) && InOrder(window)
    requires forall i :: 0 <= i < |window| ==> window[i].at <= w.clock
    ensures forall i :: 0 <= i < |window| && window[i].id == id ==> window[i].at < w.clock
  {
    forall i | 0 <= i < |window| && window[i].id == id
      ensures window[i].at < w.clock
    {
      LatestHolds(window, i);
      var j := LatestIsOneOf(window, id);
      LatestIsLast(window, i);
    }
  }

  lemma {:induction false} LatestIsLast(log: seq<Settled>, i: nat)
    requires InOrder(log) && i < |log|
    ensures log[i].id in Latest(log) && log[i].at <= Latest(log)[log[i].id].at
    decreases |log|
  {
    var n := |log| - 1;
    if i < n && log[n].id != log[i].id {
      LatestIsLast(log[..n], i);
    }
  }

  /** Accepting touches no verdict, and starts no trace that has one in force. */
  lemma AcceptStarts(cfg: Config, w: World, spans: seq<Span>, now: int)
    ensures var t := AfterAccept(cfg, w, spans, now);
            && t.log == w.log && t.clock == w.clock && t.s.verdicts == w.s.verdicts
            && t.s.judging.Keys == w.s.judging.Keys
            && (forall id :: id in t.s.pending && id !in w.s.pending ==>
                  id !in w.s.judging && Verdict(cfg, w.s, id, now) == None)
  {
    AcceptedStarts(cfg, w.s, spans, now);
    hide Accepted, Following, Verdict;
  }

  lemma AcceptedStarts(cfg: Config, s: State, spans: seq<Span>, now: int)
    ensures var t := Accepted(cfg, s, spans, now);
            && t.verdicts == s.verdicts && t.judging.Keys == s.judging.Keys
            && (forall id :: id in t.pending && id !in s.pending ==>
                  id !in s.judging && Verdict(cfg, s, id, now) == None)
  {
    hide PlacedAll, Held, Verdict;
    PlacedAllKeeps(cfg, s, spans, now);
  }

  lemma AcceptRecalls(cfg: Config, w: World, spans: seq<Span>, now: int)
    requires Recalls(cfg, w) && now <= w.clock
    ensures Recalls(cfg, AfterAccept(cfg, w, spans, now))
  {
    hide MemoryIsSuffix, LogInTime, AfterAccept;
    var t := AfterAccept(cfg, w, spans, now);
    AcceptStarts(cfg, w, spans, now);
    TimeIsKept(w, t);
    MemoryIsKept(w, t);
    forall id | id in t.s.verdicts.decided && (id in t.s.pending || id in t.s.judging)
      ensures t.s.verdicts.decided[id].at + cfg.remember <= t.clock
    {
      assert id in w.s.pending || id in w.s.judging || Verdict(cfg, w.s, id, now) == None;
    }
  }

  lemma MemoryIsKept(w: World, t: World)
    requires MemoryIsSuffix(w) && t.log == w.log && t.s.verdicts == w.s.verdicts
    ensures MemoryIsSuffix(t)
  {
  }

  lemma InHandIsJudged(cfg: Config, w: World, id: TraceID, keep: bool)
    requires Good(cfg, w) && CanSettle(w, id, keep)
    ensures id in w.s.judging && id !in w.s.pending && Recalls(cfg, w) && OwnedMap(w.s.judging)
  {
    hide Recalls, Conserved, Counted, OwnedMap, OwnedPending;
  }

  /** The parts of a settled world that its verdicts are about. */
  lemma SettledIs(cfg: Config, w: World, id: TraceID, keep: bool)
    ensures var t := AfterSettle(cfg, w, id, keep);
            && t.log == w.log + [Settled(id, keep, w.clock)] && t.clock == w.clock && t.accepted == w.accepted
            && t.s.pending == w.s.pending && t.s.judging == w.s.judging - {id}
            && t.s.verdicts == (if cfg.remember <= 0 then w.s.verdicts
                                else Trimmed(Noted(w.s.verdicts, id, keep, w.clock), cfg.maxDecisions))
            && t.queued == (if keep then w.queued + Waiting(w.s, id) else w.queued)
            && t.discarded == (if keep then w.discarded else w.discarded + Waiting(w.s, id))
  {
    hide Trimmed, Noted, InHand, Waiting;
  }

  lemma SettleRecalls(cfg: Config, w: World, id: TraceID, keep: bool)
    requires Good(cfg, w) && CanSettle(w, id, keep)
    ensures Recalls(cfg, AfterSettle(cfg, w, id, keep))
  {
    hide Remembers, Accounted, Trimmed, Noted, AfterSettle, CanSettle;
    InHandIsJudged(cfg, w, id, keep);
    SettledIs(cfg, w, id, keep);
    var t := AfterSettle(cfg, w, id, keep);
    if cfg.remember > 0 {
      SettleRemembers(cfg, w, id, keep);
      SettledRecalls(cfg, w, t, id, keep);
    } else {
      NothingIsRemembered(t.log);
      hide LogInTime;
      SettledInTime(w, t, id, keep);
    }
  }

  lemma SettledInTime(w: World, t: World, id: TraceID, keep: bool)
    requires LogInTime(w) && t.log == w.log + [Settled(id, keep, w.clock)] && t.clock == w.clock
    ensures LogInTime(t)
  {
  }

  lemma SettledRecalls(cfg: Config, w: World, t: World, id: TraceID, keep: bool)
    requires Recalls(cfg, w) && cfg.remember > 0 && t.clock == w.clock && t.log == w.log + [Settled(id, keep, w.clock)]
    requires MemoryIsSuffix(t) && |t.s.verdicts.decided| <= cfg.maxDecisions
    requires t.s.pending == w.s.pending && t.s.judging == w.s.judging - {id} && id !in w.s.pending
    requires forall x :: x in t.s.verdicts.decided && x != id ==>
               x in w.s.verdicts.decided && t.s.verdicts.decided[x] == w.s.verdicts.decided[x]
    ensures Recalls(cfg, t)
  {
    hide MemoryIsSuffix, LogInTime;
    SettledInTime(w, t, id, keep);
  }

  lemma NothingIsRemembered(log: seq<Settled>)
    ensures Remembers(Verdicts(map[], []), log[|log|..])
  {
    assert log[|log|..] == [];
  }

  /** A step that touches no verdict and starts no trace. */
  lemma QuietRecalls(cfg: Config, w: World, t: World)
    requires Recalls(cfg, w) && t.log == w.log && t.s.verdicts == w.s.verdicts && t.clock >= w.clock
    requires t.s.pending.Keys + t.s.judging.Keys <= w.s.pending.Keys + w.s.judging.Keys
    ensures Recalls(cfg, t)
  {
    hide MemoryIsSuffix, LogInTime;
    MemoryIsKept(w, t);
    TimeIsKept(w, t);
    forall id | id in t.s.verdicts.decided && (id in t.s.pending || id in t.s.judging)
      ensures t.s.verdicts.decided[id].at + cfg.remember <= t.clock
    {
      assert id in t.s.pending.Keys + t.s.judging.Keys;
    }
  }

  lemma SealRecalls(cfg: Config, w: World, due: set<TraceID>, aged: nat)
    requires Recalls(cfg, w) && due <= w.s.pending.Keys
    ensures Recalls(cfg, AfterSeal(w, due, aged))
  {
    hide Recalls, Spread;
    QuietRecalls(cfg, w, AfterSeal(w, due, aged));
  }

  /** Every step keeps everything. */
  lemma StepIsGood(cfg: Config, w: World, step: Step)
    requires Good(cfg, w) && Enabled(w, step)
    ensures Good(cfg, After(cfg, w, step))
  {
    hide Accounted, Recalls, CanSettle, PlacedAll, Held, Following, Spread, Judged, InHand, Waiting, Expired, B.Swept, B.Allowed;
    StepAccounts(cfg, w, step);
    StepRecalls(cfg, w, step);
    hide AfterSeal;
    SealKeepsTime(cfg, w, step);
  }

  lemma SealKeepsTime(cfg: Config, w: World, step: Step)
    requires Enabled(w, step) && w.reading <= w.clock
    ensures var t := After(cfg, w, step); t.reading <= t.clock
  {
    hide CanSettle, Accepted, Sealed, Following, Judged, InHand, Waiting, Expired, Spread, B.Swept, B.Allowed;
  }

  lemma StepRecalls(cfg: Config, w: World, step: Step)
    requires Good(cfg, w) && Enabled(w, step)
    ensures Recalls(cfg, After(cfg, w, step))
  {
    hide Accounted, Recalls, AfterAccept, AfterSeal, AfterSettle, AfterForget, CanSettle;
    match step
    case Accept(spans, now) => AcceptRecalls(cfg, w, spans, now);
    case Settle(id, keep) => SettleRecalls(cfg, w, id, keep);
    case Forget(now) => ForgetRecalls(cfg, w, now);
    case Seal(due, aged) => SealRecalls(cfg, w, due, aged);
    case Tick(_) => QuietRecalls(cfg, w, After(cfg, w, step));
    case Allow(_, _) => QuietRecalls(cfg, w, After(cfg, w, step));
    case Write(_, _) => QuietRecalls(cfg, w, After(cfg, w, step));
    case TakeLate(_) => QuietRecalls(cfg, w, After(cfg, w, step));
    case WriteLate(_, _) => QuietRecalls(cfg, w, After(cfg, w, step));
    case CountLost(_) => QuietRecalls(cfg, w, After(cfg, w, step));
  }

  // ------------------------------------------------------------------- runs

  /** A run: worlds, and the steps between them. */
  ghost predicate IsRun(cfg: Config, ws: seq<World>, steps: seq<Step>) {
    && |ws| == |steps| + 1
    && forall i :: 0 <= i < |steps| ==> Enabled(ws[i], steps[i]) && ws[i + 1] == After(cfg, ws[i], steps[i])
  }

  lemma StartIsGood(cfg: Config, clock: int)
    requires cfg.Valid()
    ensures Good(cfg, Start(clock))
  {
    var w := Start(clock);
    assert Remembers(w.s.verdicts, w.log[0..]);
    SpreadOfNothing();
    assert PendingSpans(w.s.pending) == map[];
  }

  /** Every world of every run from a good one is good. */
  lemma {:induction false} RunIsGood(cfg: Config, ws: seq<World>, steps: seq<Step>, i: nat)
    requires IsRun(cfg, ws, steps) && Good(cfg, ws[0]) && i < |ws|
    ensures Good(cfg, ws[i])
  {
    hide Good, Enabled, After;
    if i > 0 {
      RunIsGood(cfg, ws, steps, i - 1);
      StepIsGood(cfg, ws[i - 1], steps[i - 1]);
    }
  }

  /** The conservation law, as the counters tell it, at every moment of every
      run: what was accepted is buffered, in flight, written, lost or dropped,
      and the buffer never exceeds its limit. */
  lemma ConservationLaw(cfg: Config, ws: seq<World>, steps: seq<Step>, i: nat, clock: int)
    requires cfg.Valid() && IsRun(cfg, ws, steps) && ws[0] == Start(clock) && i < |ws|
    ensures var w := ws[i];
            var st := w.s.stats;
            && st.accepted == st.buffered + |InFlight(w)| + |w.written| + st.lost + st.droppedSpans + st.lateDropped
            && st.buffered == |Content(w.s)| <= cfg.maxSpans
            && w.s.pending.Keys !! w.s.judging.Keys
  {
    StartIsGood(cfg, clock);
    RunIsGood(cfg, ws, steps, i);
    hide Recalls, Owned, Content, InFlight, IsRun;
    var w := ws[i];
    assert |multiset(w.accepted)| == |w.accepted|;
  }

  /** The verdict memory at every moment of every run: a suffix of the log of
      verdicts, within its limit. */
  lemma MemoryLaw(cfg: Config, ws: seq<World>, steps: seq<Step>, i: nat, clock: int)
    requires cfg.Valid() && IsRun(cfg, ws, steps) && ws[0] == Start(clock) && i < |ws|
    ensures MemoryIsSuffix(ws[i])
    ensures cfg.remember > 0 ==> |ws[i].s.verdicts.decided| <= cfg.maxDecisions
    ensures cfg.remember == 0 ==> ws[i].s.verdicts == Verdicts(map[], [])
  {
    hide MemoryIsSuffix, Accounted;
    StartIsGood(cfg, clock);
    RunIsGood(cfg, ws, steps, i);
  }

  // ------------------------------------------------------ following a verdict

  /** Being judged, or judged and not yet past its memory. */
  ghost predicate Watched(cfg: Config, w: World, id: TraceID) {
    || id in w.s.judging
    || (id in w.s.verdicts.decided && w.clock < w.s.verdicts.decided[id].at + cfg.remember)
  }

  /** The verdict a span follows is the last one settled for its trace, and is
      not yet as old as Remember. */
  lemma VerdictIsTheLast(cfg: Config, w: World, id: TraceID, now: int) returns (i: nat)
    requires Good(cfg, w) && Verdict(cfg, w.s, id, now).Some?
    ensures i < |w.log| && w.log[i].id == id && Some(w.log[i].keep) == Verdict(cfg, w.s, id, now)
    ensures now - w.log[i].at < cfg.remember && forall j :: i < j < |w.log| ==> w.log[j].id != id
    ensures id !in w.s.judging
  {
    hide Accounted, Remembers;
    var k :| 0 <= k <= |w.log| && Remembers(w.s.verdicts, w.log[k..]);
    DecidedIs(w.s.verdicts, w.log[k..]);
    var j := LatestIsTheLast(w.log[k..], id);
    i := k + j;
    assert w.log[k..][j] == w.log[i];
    forall l | i < l < |w.log|
      ensures w.log[l].id != id
    {
      assert w.log[k..][l - k] == w.log[l];
    }
  }

  /** A watched trace is not waiting for another verdict. */
  lemma WatchedIsNotPending(cfg: Config, w: World, id: TraceID)
    requires Good(cfg, w) && Watched(cfg, w, id)
    ensures id !in w.s.pending
  {
  }

  function Of(spans: seq<Span>, id: TraceID): seq<Span> {
    if spans == [] then []
    else
      var n := |spans| - 1;
      Of(spans[..n], id) + if spans[n].traceID == id then [spans[n]] else []
  }

  lemma {:induction false} OfConcat(a: seq<Span>, b: seq<Span>, id: TraceID)
    ensures Of(a + b, id) == Of(a, id) + Of(b, id)
    decreases |b|
  {
    if b == [] {
      assert a + b == a;
    } else {
      assert (a + b)[..|a + b| - 1] == a + b[..|b| - 1];
      OfConcat(a, b[..|b| - 1], id);
    }
  }

  lemma {:induction false} OfOneTrace(spans: seq<Span>, x: TraceID, id: TraceID)
    requires OfTrace(spans, x)
    ensures Of(spans, id) == if x == id then spans else []
  {
    if spans != [] {
      var n := |spans| - 1;
      OfOneTrace(spans[..n], x, id);
      assert spans == spans[..n] + [spans[n]];
    }
  }

  ghost function VerdictsOf(log: seq<Settled>, id: TraceID): nat {
    if log == [] then 0
    else VerdictsOf(log[..|log| - 1], id) + if log[|log| - 1].id == id then 1 else 0
  }

  /** The spans of a batch that follow a verdict: for one trace, all or none. */
  lemma {:induction false} FollowingOf(cfg: Config, s: State, spans: seq<Span>, now: int, keep: bool, id: TraceID)
    ensures Of(Following(cfg, s, spans, now, keep), id) ==
            if Verdict(cfg, s, id, now) == Some(keep) then Of(spans, id) else []
  {
    hide Verdict;
    if spans != [] {
      var n := |spans| - 1;
      FollowingOf(cfg, s, spans[..n], now, keep, id);
      var one := if Verdict(cfg, s, spans[n].traceID, now) == Some(keep) then [spans[n]] else [];
      OfConcat(Following(cfg, s, spans[..n], now, keep), one, id);
      OfOneTrace(one, spans[n].traceID, id);
    }
  }

  /** Spans that come while their trace is judged wait, in order. */
  lemma {:induction false} WaitingGrows(cfg: Config, s: State, spans: seq<Span>, now: int, id: TraceID)
    requires id in s.judging
    ensures var t := PlacedAll(cfg, s, spans, now);
            id in t.judging && t.judging[id] == s.judging[id] + Of(spans, id)
  {
    hide Verdict;
    if spans != [] {
      var n := |spans| - 1;
      WaitingGrows(cfg, s, spans[..n], now, id);
      PlacedWaits(cfg, PlacedAll(cfg, s, spans[..n], now), spans[n], now, id);
      hide Placed;
    } else {
      assert s.judging[id] + [] == s.judging[id];
    }
  }

  lemma PlacedWaits(cfg: Config, s: State, sp: Span, now: int, id: TraceID)
    requires id in s.judging
    ensures var t := Placed(cfg, s, sp, now);
            id in t.judging && t.judging[id] == s.judging[id] + if sp.traceID == id then [sp] else []
  {
    hide Verdict;
  }

  /** Where the spans of a trace are, that came since it was taken for judging
      in world w0: waiting for the verdict, or gone where the verdict says. */
  ghost predicate Obeys(w0: World, w: World, id: TraceID) {
    && |w0.accepted| <= |w.accepted|
    && var came := Of(w.accepted[|w0.accepted|..], id);
       if id in w.s.judging then
         && w.s.judging[id] == came
         && Of(w.queued, id) == Of(w0.queued, id)
         && Of(w.discarded, id) == Of(w0.discarded, id)
         && VerdictsOf(w.log, id) == VerdictsOf(w0.log, id)
       else
         && id in w.s.verdicts.decided
         && var keep := w.s.verdicts.decided[id].keep;
            && Of(w.queued, id) == Of(w0.queued, id) + (if keep then came else [])
            && Of(w.discarded, id) == Of(w0.discarded, id) + (if keep then [] else came)
            && VerdictsOf(w.log, id) == VerdictsOf(w0.log, id) + 1
  }

  /** What a batch does for one trace. */
  lemma AcceptFacts(cfg: Config, w: World, spans: seq<Span>, now: int, id: TraceID) returns (more: seq<Span>)
    ensures var t := AfterAccept(cfg, w, spans, now);
            var v := Verdict(cfg, w.s, id, now);
            && t.log == w.log && t.s.verdicts == w.s.verdicts && t.clock == w.clock
            && t.accepted == w.accepted + more
            && Of(t.queued, id) == Of(w.queued, id) + (if v == Some(true) then Of(more, id) else [])
            && Of(t.discarded, id) == Of(w.discarded, id) + (if v == Some(false) then Of(more, id) else [])
            && t.s.judging.Keys == w.s.judging.Keys
            && (id in w.s.judging ==> t.s.judging[id] == w.s.judging[id] + Of(more, id))
  {
    hide PlacedAll, Held, Following, Verdict;
    PlacedAllKeeps(cfg, w.s, spans, now);
    if AcceptOutcome(cfg, w.s, spans, now) == Taken {
      more := spans;
      OfConcat(w.queued, Following(cfg, w.s, spans, now, true), id);
      OfConcat(w.discarded, Following(cfg, w.s, spans, now, false), id);
      FollowingOf(cfg, w.s, spans, now, true, id);
      FollowingOf(cfg, w.s, spans, now, false, id);
      if id in w.s.judging {
        WaitingGrows(cfg, w.s, spans, now, id);
      }
    } else {
      more := [];
      assert Of(more, id) == [];
    }
  }

  lemma AcceptObeys(cfg: Config, w0: World, w: World, id: TraceID, spans: seq<Span>, now: int)
    requires Obeys(w0, w, id) && Watched(cfg, w, id) && now <= w.clock
    ensures Obeys(w0, AfterAccept(cfg, w, spans, now), id)
  {
    hide AfterAccept, Of, VerdictsOf;
    var t := AfterAccept(cfg, w, spans, now);
    var more := AcceptFacts(cfg, w, spans, now, id);
    var n := |w0.accepted|;
    assert t.accepted[n..] == w.accepted[n..] + more;
    OfConcat(w.accepted[n..], more, id);
    var came := Of(w.accepted[n..], id);
    assert Of(w0.queued, id) + came + Of(more, id) == Of(w0.queued, id) + (came + Of(more, id));
    assert Of(w0.discarded, id) + came + Of(more, id) == Of(w0.discarded, id) + (came + Of(more, id));
  }

  /** What settling one trace does for another, or for itself. */
  lemma SettleFacts(cfg: Config, w: World, x: TraceID, keep: bool, id: TraceID)
    requires Good(cfg, w) && CanSettle(w, x, keep)
    ensures x in w.s.judging
    ensures var t := AfterSettle(cfg, w, x, keep);
            var came := if x == id then w.s.judging[x] else [];
            && t.accepted == w.accepted && t.clock == w.clock && t.s.judging == w.s.judging - {x}
            && Of(t.queued, id) == Of(w.queued, id) + (if keep then came else [])
            && Of(t.discarded, id) == Of(w.discarded, id) + (if keep then [] else came)
            && VerdictsOf(t.log, id) == VerdictsOf(w.log, id) + (if x == id then 1 else 0)
  {
    hide Good, Recalls, AfterSettle, CanSettle, Of;
    InHandIsJudged(cfg, w, x, keep);
    SettledIs(cfg, w, x, keep);
    var t := AfterSettle(cfg, w, x, keep);
    var waiting := Waiting(w.s, x);
    assert OfTrace(waiting, x);
    OfConcat(w.queued, waiting, id);
    OfConcat(w.discarded, waiting, id);
    OfOneTrace(waiting, x, id);
    assert t.log[..|w.log|] == w.log;
  }

  lemma SettleVerdicts(cfg: Config, w: World, x: TraceID, keep: bool, id: TraceID)
    requires Good(cfg, w) && CanSettle(w, x, keep)
    ensures var t := AfterSettle(cfg, w, x, keep);
            var v, v' := w.s.verdicts.decided, t.s.verdicts.decided;
            && (cfg.remember > 0 && x == id ==> id in v' && v'[id] == Decision(keep, w.clock))
            && (x != id && id in v' ==> id in v && v'[id] == v[id])
            && (cfg.remember == 0 ==> t.s.verdicts == w.s.verdicts)
  {
    hide Accounted, Trimmed, Noted, MemoryIsSuffix, LogInTime, AfterSettle, CanSettle;
    InHandIsJudged(cfg, w, x, keep);
    SettledIs(cfg, w, x, keep);
    if cfg.remember > 0 {
      SettleRemembers(cfg, w, x, keep);
    }
  }

  lemma SettleObeys(cfg: Config, w0: World, w: World, id: TraceID, x: TraceID, keep: bool)
    requires Good(cfg, w) && Obeys(w0, w, id) && CanSettle(w, x, keep)
    requires Watched(cfg, w, id) && Watched(cfg, AfterSettle(cfg, w, x, keep), id)
    ensures Obeys(w0, AfterSettle(cfg, w, x, keep), id)
  {
    hide AfterSettle, Of, VerdictsOf, Good, CanSettle;
    var t := AfterSettle(cfg, w, x, keep);
    SettleFacts(cfg, w, x, keep, id);
    SettleVerdicts(cfg, w, x, keep, id);
    if x == id {
      NotFromTheFuture(cfg, w, t, id);
    }
    DecidedObeys(w0, w, t, id, x, keep);
  }

  /** A verdict still in force is worth remembering. */
  lemma NotFromTheFuture(cfg: Config, w: World, t: World, id: TraceID)
    requires Good(cfg, w) && Watched(cfg, t, id) && t.clock == w.clock && id !in t.s.judging
    requires cfg.remember == 0 ==> t.s.verdicts == w.s.verdicts
    ensures cfg.remember > 0
  {
  }

  lemma DecidedObeys(w0: World, w: World, t: World, id: TraceID, x: TraceID, keep: bool)
    requires Obeys(w0, w, id) && x in w.s.judging
    requires t.accepted == w.accepted && t.s.judging == w.s.judging - {x}
    requires var came := if x == id then w.s.judging[x] else [];
             && Of(t.queued, id) == Of(w.queued, id) + (if keep then came else [])
             && Of(t.discarded, id) == Of(w.discarded, id) + (if keep then [] else came)
             && VerdictsOf(t.log, id) == VerdictsOf(w.log, id) + (if x == id then 1 else 0)
    requires x == id ==> id in t.s.verdicts.decided && t.s.verdicts.decided[id].keep == keep
    requires x != id && id !in w.s.judging ==>
      id in t.s.verdicts.decided && id in w.s.verdicts.decided && t.s.verdicts.decided[id] == w.s.verdicts.decided[id]
    ensures Obeys(w0, t, id)
  {
    hide Of, VerdictsOf;
    assert Of(w.queued, id) + [] == Of(w.queued, id) && Of(w.discarded, id) + [] == Of(w.discarded, id);
  }

  /** One step of a watched trace. */
  lemma StepObeys(cfg: Config, w0: World, w: World, step: Step, id: TraceID)
    requires Good(cfg, w) && Obeys(w0, w, id) && Enabled(w, step)
    requires Watched(cfg, w, id) && Watched(cfg, After(cfg, w, step), id)
    ensures Obeys(w0, After(cfg, w, step), id)
    ensures step.Seal? ==> id !in step.due
  {
    WatchedIsNotPending(cfg, w, id);
    hide Good, Watched, Obeys, AfterAccept, AfterSettle, AfterForget, AfterSeal, CanSettle, B.Allowed;
    match step
    case Accept(spans, now) => AcceptObeys(cfg, w0, w, id, spans, now);
    case Settle(x, keep) => SettleObeys(cfg, w0, w, id, x, keep);
    case Allow(_, _) => QuietObeys(w0, w, After(cfg, w, step), id);
    case Write(_, _) => QuietObeys(w0, w, After(cfg, w, step), id);
    case CountLost(_) => QuietObeys(w0, w, After(cfg, w, step), id);
    case Tick(_) => QuietObeys(w0, w, After(cfg, w, step), id);
    case Seal(due, aged) => SealObeys(w0, w, id, due, aged);
    case Forget(now) => ForgetObeys(cfg, w0, w, id, now);
    case TakeLate(_) => QuietObeys(w0, w, After(cfg, w, step), id);
    case WriteLate(_, _) => QuietObeys(w0, w, After(cfg, w, step), id);
  }

  lemma ForgetObeys(cfg: Config, w0: World, w: World, id: TraceID, now: int)
    requires Good(cfg, w) && Obeys(w0, w, id) && Watched(cfg, w, id) && Watched(cfg, AfterForget(cfg, w, now), id)
    ensures Obeys(w0, AfterForget(cfg, w, now), id)
  {
    ForgetRecalls(cfg, w, now);
    hide Good, Recalls, Obeys, Expired, B.Swept;
    QuietObeys(w0, w, AfterForget(cfg, w, now), id);
  }

  lemma SealObeys(w0: World, w: World, id: TraceID, due: set<TraceID>, aged: nat)
    requires Obeys(w0, w, id) && id !in due
    ensures Obeys(w0, AfterSeal(w, due, aged), id)
  {
    hide Obeys, Spread;
    QuietObeys(w0, w, AfterSeal(w, due, aged), id);
  }

  /** A step that does nothing for a trace. */
  lemma QuietObeys(w0: World, w: World, t: World, id: TraceID)
    requires Obeys(w0, w, id)
    requires t.accepted == w.accepted && t.queued == w.queued && t.discarded == w.discarded && t.log == w.log
    requires id in t.s.judging <==> id in w.s.judging
    requires id in w.s.judging ==> t.s.judging[id] == w.s.judging[id]
    requires id !in w.s.judging && id in w.s.verdicts.decided ==>
      id in t.s.verdicts.decided && t.s.verdicts.decided[id] == w.s.verdicts.decided[id]
    ensures Obeys(w0, t, id)
  {
    hide Of, VerdictsOf;
  }

  /** Where the spans of a trace went when its verdict was settled. */
  ghost predicate Went(w0: World, w: World, id: TraceID, keep: bool) {
    && |w0.accepted| <= |w.accepted|
    && var came := Of(w.accepted[|w0.accepted|..], id);
       && Of(w.queued, id) == Of(w0.queued, id) + (if keep then came else [])
       && Of(w.discarded, id) == Of(w0.discarded, id) + (if keep then [] else came)
       && VerdictsOf(w.log, id) == VerdictsOf(w0.log, id) + 1
  }

  /** The settling itself, remembered or not. */
  lemma SettleSends(cfg: Config, w0: World, w: World, id: TraceID, keep: bool)
    requires Good(cfg, w) && Obeys(w0, w, id) && CanSettle(w, id, keep)
    ensures Went(w0, AfterSettle(cfg, w, id, keep), id, keep)
  {
    SettleFacts(cfg, w, id, keep, id);
    hide Good, AfterSettle, CanSettle, Of, VerdictsOf;
  }

  /** From the moment a trace is taken for judging, as long as it is watched, it
      gets exactly one verdict and is never taken again, and every span accepted
      for it meanwhile is queued for the writer if the verdict was to keep it
      and discarded if not, in order and whole. Where its spans go is decided
      when it is settled, even if its verdict is not remembered at all. */
  lemma SpansFollowTheVerdict(cfg: Config, ws: seq<World>, steps: seq<Step>, id: TraceID, i: nat)
    requires IsRun(cfg, ws, steps) && Good(cfg, ws[0]) && i < |ws|
    requires id in ws[0].s.judging && ws[0].s.judging[id] == []
    requires forall k :: 0 <= k <= i ==> Watched(cfg, ws[k], id)
    ensures Obeys(ws[0], ws[i], id)
    ensures forall k :: 0 <= k < i && steps[k].Seal? ==> id !in steps[k].due
    ensures i < |steps| && steps[i].Settle? && steps[i].id == id ==> Went(ws[0], ws[i + 1], id, steps[i].keep)
  {
    hide Watched, Good, After, Enabled, Went;
    if i < |steps| && steps[i].Settle? && steps[i].id == id {
      SpansObey(cfg, ws, steps, id, i);
      RunIsGood(cfg, ws, steps, i);
      SettleStep(cfg, ws[i], steps[i]);
      SettleSends(cfg, ws[0], ws[i], id, steps[i].keep);
    }
    SpansObey(cfg, ws, steps, id, i);
  }

  lemma SettleStep(cfg: Config, w: World, step: Step)
    requires Enabled(w, step) && step.Settle?
    ensures CanSettle(w, step.id, step.keep) && After(cfg, w, step) == AfterSettle(cfg, w, step.id, step.keep)
  {
    hide CanSettle, AfterSettle;
  }

  lemma {:induction false} SpansObey(cfg: Config, ws: seq<World>, steps: seq<Step>, id: TraceID, i: nat)
    requires IsRun(cfg, ws, steps) && Good(cfg, ws[0]) && i < |ws|
    requires id in ws[0].s.judging && ws[0].s.judging[id] == []
    requires forall k :: 0 <= k <= i ==> Watched(cfg, ws[k], id)
    ensures Obeys(ws[0], ws[i], id)
    ensures forall k :: 0 <= k < i && steps[k].Seal? ==> id !in steps[k].due
  {
    hide Watched, Good, After, Enabled;
    if i == 0 {
      assert ws[0].accepted[|ws[0].accepted|..] == [];
    } else {
      hide Obeys;
      SpansObey(cfg, ws, steps, id, i - 1);
      RunIsGood(cfg, ws, steps, i - 1);
      var w, step := ws[i - 1], steps[i - 1];
      assert Enabled(w, step) && ws[i - 1 + 1] == After(cfg, w, step);
      StepObeys(cfg, ws[0], w, step, id);
    }
  }

  // ------------------------------------------------------------- allowances

  lemma {:induction false} RunOfMore(lim: B.Limits, bs: B.Buckets, a: seq<B.Event>, b: seq<B.Event>)
    ensures B.RunOf(lim, bs, a + b) == B.RunOf(lim, B.RunOf(lim, bs, a), b)
    decreases |a|
  {
    if a == [] {
      assert a + b == b;
    } else {
      assert (a + b)[1..] == a[1..] + b;
      RunOfMore(lim, B.Stepped(lim, bs, a[0]), a[1..], b);
    }
  }

  lemma {:induction false} EventsMore(a: seq<B.Event>, b: seq<B.Event>, clock: int)
    ensures B.ClockAfter(clock, a + b) == B.ClockAfter(B.ClockAfter(clock, a), b)
    ensures B.EventsOk(a + b, clock) <==> B.EventsOk(a, clock) && B.EventsOk(b, B.ClockAfter(clock, a))
    decreases |a|
  {
    if a == [] {
      assert a + b == b;
    } else {
      assert (a + b)[1..] == a[1..] + b;
      EventsMore(a[1..], b, B.Later(clock, a[0]));
    }
  }

  lemma {:induction false} ReadingsWithin(a: seq<B.Event>, clock: int, i: nat)
    requires i < |a|
    ensures a[i].now <= B.ClockAfter(clock, a)
    ensures clock <= B.ClockAfter(clock, a)
    decreases |a|
  {
    var later := B.Later(clock, a[0]);
    if i > 0 {
      ReadingsWithin(a[1..], later, i - 1);
    } else if |a| > 1 {
      ReadingsWithin(a[1..], later, 0);
    }
  }

  /** The buckets are what the uses made of them so far leave, and the times those
      went by are in order. */
  ghost predicate Charged(cfg: Config, w: World, clock: int) {
    && w.s.buckets == B.RunOf(cfg.limits, map[], w.charges)
    && B.EventsOk(w.charges, clock)
    && B.ClockAfter(clock, w.charges) == w.reading
  }

  lemma ChargedMore(cfg: Config, w: World, e: B.Event, clock: int)
    requires Charged(cfg, w, clock) && B.EventOk(e, w.reading)
    ensures B.RunOf(cfg.limits, map[], w.charges + [e]) == B.Stepped(cfg.limits, w.s.buckets, e)
    ensures B.EventsOk(w.charges + [e], clock)
    ensures B.ClockAfter(clock, w.charges + [e]) == B.Later(w.reading, e)
  {
    RunOfMore(cfg.limits, map[], w.charges, [e]);
    EventsMore(w.charges, [e], clock);
    assert [e][1..] == [];
  }

  /** What a step does to the allowances. */
  function UseOf(step: Step): seq<B.Event> {
    match step
    case Allow(service, now) => [B.Allow(service, now)]
    case Forget(now) => [B.Sweep(now)]
    case _ => []
  }

  lemma StepCharges(cfg: Config, w: World, step: Step, clock: int)
    requires Charged(cfg, w, clock) && Enabled(w, step)
    ensures Charged(cfg, After(cfg, w, step), clock)
    ensures After(cfg, w, step).charges == w.charges + UseOf(step)
  {
    hide CanSettle, Sealed, Following, Followed, InHand, Waiting, Expired, Spread, Held, PlacedAll, B.Allowed, B.Swept;
    match step
    case Accept(spans, now) => AcceptKeepsBuckets(cfg, w, spans, now);
    case Allow(service, now) => ChargedMore(cfg, w, B.Allow(service, now), clock);
    case Forget(now) => ChargedMore(cfg, w, B.Sweep(now), clock);
    case Seal(due, aged) => SealKeepsBuckets(w, due, aged);
    case Settle(id, keep) => SettleKeepsBuckets(cfg, w, id, keep);
    case _ =>
  }

  lemma AcceptKeepsBuckets(cfg: Config, w: World, spans: seq<Span>, now: int)
    ensures var t := AfterAccept(cfg, w, spans, now);
            t.s.buckets == w.s.buckets && t.charges == w.charges && t.reading == w.reading
  {
    hide PlacedAll, Held, Following;
    PlacedAllBuckets(cfg, w.s, spans, now);
  }

  lemma {:induction false} PlacedAllBuckets(cfg: Config, s: State, spans: seq<Span>, now: int)
    ensures PlacedAll(cfg, s, spans, now).buckets == s.buckets
  {
    hide Verdict;
    if spans != [] {
      PlacedAllBuckets(cfg, s, spans[..|spans| - 1], now);
    }
  }

  lemma SealKeepsBuckets(w: World, due: set<TraceID>, aged: nat)
    ensures var t := AfterSeal(w, due, aged);
            t.s.buckets == w.s.buckets && t.charges == w.charges && t.reading == w.reading
  {
    hide Spread, PendingSpans, Only;
  }

  lemma SettleKeepsBuckets(cfg: Config, w: World, id: TraceID, keep: bool)
    ensures var t := AfterSettle(cfg, w, id, keep);
            t.s.buckets == w.s.buckets && t.charges == w.charges && t.reading == w.reading
  {
    hide Trimmed, Noted, InHand, Waiting;
  }

  lemma {:induction false} RunCharges(cfg: Config, ws: seq<World>, steps: seq<Step>, i: nat, clock: int)
    requires IsRun(cfg, ws, steps) && ws[0] == Start(clock) && i < |ws|
    ensures Charged(cfg, ws[i], clock)
  {
    hide Enabled, After, Charged;
    if i == 0 {
      NothingCharged(cfg, clock);
    } else {
      RunCharges(cfg, ws, steps, i - 1, clock);
      StepCharges(cfg, ws[i - 1], steps[i - 1], clock);
    }
  }

  lemma NothingCharged(cfg: Config, clock: int)
    ensures Charged(cfg, Start(clock), clock)
  {
  }

  lemma {:induction false} ChargesGrow(cfg: Config, ws: seq<World>, steps: seq<Step>, i: nat, j: nat, clock: int)
    requires IsRun(cfg, ws, steps) && ws[0] == Start(clock) && i <= j < |ws|
    ensures ws[i].charges <= ws[j].charges
    decreases j
  {
    hide Enabled, After, Charged;
    if i < j {
      ChargesGrow(cfg, ws, steps, i, j - 1, clock);
      RunCharges(cfg, ws, steps, j - 1, clock);
      StepCharges(cfg, ws[j - 1], steps[j - 1], clock);
    }
  }

  /** The allowances over every run: between any two moments a service is granted
      at most its burst and what its rate earned in the time the grants went by,
      and no answer would have been different had no bucket ever been dropped. */
  lemma AllowanceLaw(cfg: Config, ws: seq<World>, steps: seq<Step>, i: nat, j: nat, service: Text, clock: int)
    requires cfg.limits.Valid() && IsRun(cfg, ws, steps) && ws[0] == Start(clock) && i <= j < |ws|
    ensures ws[i].charges <= ws[j].charges && ws[i].reading <= ws[j].reading
    ensures B.Grants(cfg.limits, ws[i].s.buckets, ws[j].charges[|ws[i].charges|..], service) as real
            <= cfg.limits.burst as real + cfg.limits.rate * ((ws[j].reading - ws[i].reading) as real) / 1000000000.0
    ensures B.Answers(cfg.limits, map[], ws[j].charges) == B.AnswersForever(cfg.limits, map[], ws[j].charges)
  {
    hide Enabled, After, Charged, B.Grants, B.Answers, B.AnswersForever;
    RunCharges(cfg, ws, steps, i, clock);
    RunCharges(cfg, ws, steps, j, clock);
    ChargesGrow(cfg, ws, steps, i, j, clock);
    AllowancesBetween(cfg, ws[i], ws[j], service, clock);
  }

  lemma AllowancesBetween(cfg: Config, w: World, v: World, service: Text, clock: int)
    requires cfg.limits.Valid() && Charged(cfg, w, clock) && Charged(cfg, v, clock) && w.charges <= v.charges
    ensures w.reading <= v.reading
    ensures B.Grants(cfg.limits, w.s.buckets, v.charges[|w.charges|..], service) as real
            <= cfg.limits.burst as real + cfg.limits.rate * ((v.reading - w.reading) as real) / 1000000000.0
    ensures B.Answers(cfg.limits, map[], v.charges) == B.AnswersForever(cfg.limits, map[], v.charges)
  {
    hide B.Grants, B.Answers, B.AnswersForever, B.RunOf, B.EventsOk, B.ClockAfter;
    var window := v.charges[|w.charges|..];
    assert v.charges == w.charges + window;
    EventsMore(w.charges, window, clock);
    ReadingsRise(window, w.reading);
    B.WindowIsBounded(cfg.limits, w.charges, window, service, clock, w.reading, v.reading);
    B.ForgetfulSamplerIsFair(cfg.limits, v.charges, clock);
  }

  lemma ReadingsRise(window: seq<B.Event>, clock: int)
    ensures clock <= B.ClockAfter(clock, window)
    ensures forall k :: 0 <= k < |window| ==> window[k].now <= B.ClockAfter(clock, window)
  {
    B.ClockRises(clock, window);
    forall k | 0 <= k < |window|
      ensures window[k].now <= B.ClockAfter(clock, window)
    {
      ReadingsWithin(window, clock, k);
    }
  }

  lemma {:induction false} UsesBetween(cfg: Config, ws: seq<World>, steps: seq<Step>, i: nat, j: nat, service: Text, clock: int)
    returns (between: seq<B.Event>)
    requires IsRun(cfg, ws, steps) && ws[0] == Start(clock) && i <= j < |ws|
    requires forall k :: i <= k < j && steps[k].Allow? ==> steps[k].service != service
    ensures ws[j].charges == ws[i].charges + between
    ensures forall e :: e in between ==> !B.Uses(e, service)
    decreases j
  {
    hide Enabled, After, Charged;
    if i == j {
      between := [];
    } else {
      between := UsesBetween(cfg, ws, steps, i, j - 1, service, clock);
      RunCharges(cfg, ws, steps, j - 1, clock);
      StepCharges(cfg, ws[j - 1], steps[j - 1], clock);
      between := between + UseOf(steps[j - 1]);
    }
  }

  /** Tokens come back, in every run: the next allowance of a service is granted
      if and only if what its last one left it and what the rate made since come to
      a token, and whenever the rate alone made one; whatever other services and
      any number of sweeps did in between. */
  lemma NextAllowance(cfg: Config, ws: seq<World>, steps: seq<Step>, i: nat, j: nat, service: Text, clock: int)
    requires cfg.limits.Valid() && IsRun(cfg, ws, steps) && ws[0] == Start(clock) && i < j < |steps|
    requires steps[i].Allow? && steps[i].service == service && steps[j].Allow? && steps[j].service == service
    requires forall k :: i < k < j && steps[k].Allow? ==> steps[k].service != service
    ensures ComesBack(cfg.limits, ws[i].s.buckets, ws[j].s.buckets, service, steps[i].now, steps[j].now)
  {
    hide Enabled, After, Charged, ComesBack;
    RunCharges(cfg, ws, steps, i, clock);
    RunCharges(cfg, ws, steps, i + 1, clock);
    RunCharges(cfg, ws, steps, j, clock);
    var between := UsesBetween(cfg, ws, steps, i + 1, j, service, clock);
    AllowStep(cfg, ws[i], steps[i]);
    AllowStep(cfg, ws[j], steps[j]);
    BackAgain(cfg, ws[i], ws[i + 1], ws[j], between, service, steps[i].now, steps[j].now, clock);
  }

  /** What the buckets at the last use of a service say about its next one. */
  ghost predicate ComesBack(lim: B.Limits, bs: B.Buckets, later: B.Buckets, service: Text, used: int, now: int) {
    var granted := B.Allowed(lim, bs, service, used).1;
    var left := B.Level(lim, bs, service, used) - if granted then 1.0 else 0.0;
    && B.Level(lim, later, service, now) == B.Regained(lim, left, now - used)
    && (B.Allowed(lim, later, service, now).1 <==> B.Regained(lim, left, now - used) >= 1.0)
    && (lim.rate * ((now - used) as real) / 1000000000.0 >= 1.0 ==> B.Allowed(lim, later, service, now).1)
  }

  lemma BackAgain(cfg: Config, w: World, next: World, v: World, between: seq<B.Event>, service: Text, used: int, now: int, clock: int)
    requires cfg.limits.Valid() && Charged(cfg, w, clock) && Charged(cfg, next, clock) && Charged(cfg, v, clock)
    requires w.reading <= used == next.reading && v.reading <= now
    requires next.s.buckets == B.Allowed(cfg.limits, w.s.buckets, service, used).0
    requires v.charges == next.charges + between && forall e :: e in between ==> !B.Uses(e, service)
    ensures ComesBack(cfg.limits, w.s.buckets, v.s.buckets, service, used, now)
  {
    hide B.Allowed, B.Level, B.Regained, B.RunOf, B.EventsOk, B.ClockAfter, B.Sane;
    RunOfMore(cfg.limits, map[], next.charges, between);
    EventsMore(next.charges, between, clock);
    SaneBuckets(cfg.limits, w, clock);
    B.SaneLater(cfg.limits, w.s.buckets, w.reading, used);
    B.TokensComeBack(cfg.limits, w.s.buckets, service, used, between, now);
  }

  lemma AllowStep(cfg: Config, w: World, step: Step)
    requires Enabled(w, step) && step.Allow?
    ensures w.reading <= step.now && After(cfg, w, step).reading == step.now
    ensures After(cfg, w, step).s.buckets == B.Allowed(cfg.limits, w.s.buckets, step.service, step.now).0
  {
    hide B.Allowed;
  }

  lemma SaneBuckets(lim: B.Limits, w: World, clock: int)
    requires lim.Valid() && w.s.buckets == B.RunOf(lim, map[], w.charges)
    requires B.EventsOk(w.charges, clock) && B.ClockAfter(clock, w.charges) == w.reading
    ensures B.Sane(lim, w.s.buckets, w.reading)
  {
    hide B.RunOf, B.EventsOk, B.ClockAfter;
    B.RunIsSane(lim, map[], w.charges, clock);
  }

  /** And the first allowance of a service finds its whole burst. */
  lemma FirstAllowance(cfg: Config, ws: seq<World>, steps: seq<Step>, j: nat, service: Text, clock: int)
    requires cfg.limits.Valid() && IsRun(cfg, ws, steps) && ws[0] == Start(clock) && j < |steps|
    requires steps[j].Allow? && steps[j].service == service
    requires forall k :: 0 <= k < j && steps[k].Allow? ==> steps[k].service != service
    ensures B.Level(cfg.limits, ws[j].s.buckets, service, steps[j].now) == cfg.limits.burst as real
    ensures B.Allowed(cfg.limits, ws[j].s.buckets, service, steps[j].now).1
  {
    RunCharges(cfg, ws, steps, j, clock);
    var before := UsesBetween(cfg, ws, steps, 0, j, service, clock);
    assert ws[j].charges == before;
    AllowStep(cfg, ws[j], steps[j]);
    hide IsRun, B.Allowed, B.Level, B.RunOf, B.EventsOk, B.ClockAfter;
    B.FirstUses(cfg.limits, service, steps[j].now);
    var lim, now := cfg.limits, steps[j].now;
    B.ClockRises(clock, before);
    B.LevelCarries(lim, map[], before, service, clock, now);
    SaneBuckets(lim, ws[j], clock);
    B.SaneLater(lim, ws[j].s.buckets, ws[j].reading, now);
    B.AllowedLevels(lim, ws[j].s.buckets, service, now, service, now);
  }

  // -------------------------------------------------- since when it is buffered

  /** A step that puts a span of a trace into the buffer: a batch taken that has
      one, while the trace is not being judged and follows no verdict. */
  ghost predicate Buffers(cfg: Config, w: World, step: Step, id: TraceID) {
    && step.Accept?
    && |step.spans| <= cfg.maxSpans
    && w.s.stats.buffered + Held(cfg, w.s, step.spans, step.now) <= cfg.maxSpans
    && id !in w.s.judging && Verdict(cfg, w.s, id, step.now) == None
    && HasSpan(step.spans, id)
  }

  /** The times of one trace, from state s to state t, when some of its spans came at
      a time, or none. */
  ghost predicate Timed(cfg: Config, s: State, t: State, some: bool, now: int, id: TraceID) {
    if some && id !in s.judging && Verdict(cfg, s, id, now) == None then
      && id in t.pending && t.pending[id].last == now
      && t.pending[id].first == if id in s.pending then s.pending[id].first else now
    else (id in t.pending <==> id in s.pending) && (id in s.pending ==> t.pending[id] == s.pending[id])
  }

  ghost predicate HasSpan(spans: seq<Span>, id: TraceID) {
    exists k :: 0 <= k < |spans| && spans[k].traceID == id
  }

  /** What a batch makes of the times of one trace. */
  lemma {:induction false} PlacedTimes(cfg: Config, s: State, spans: seq<Span>, now: int, id: TraceID)
    ensures Timed(cfg, s, PlacedAll(cfg, s, spans, now), HasSpan(spans, id), now, id)
  {
    if spans != [] {
      var n := |spans| - 1;
      var t := PlacedAll(cfg, s, spans[..n], now);
      PlacedTimes(cfg, s, spans[..n], now, id);
      PlacedAllKeeps(cfg, s, spans[..n], now);
      HasSpanMore(spans, id);
      hide Verdict, Placed, HasSpan;
      PlacedTime(cfg, t, spans[n], now, id);
    }
  }

  lemma HasSpanMore(spans: seq<Span>, id: TraceID)
    requires spans != []
    ensures var n := |spans| - 1; HasSpan(spans, id) <==> HasSpan(spans[..n], id) || spans[n].traceID == id
  {
    var n := |spans| - 1;
    assert forall k :: 0 <= k < n ==> spans[..n][k] == spans[k];
  }

  lemma PlacedTime(cfg: Config, s: State, sp: Span, now: int, id: TraceID)
    ensures Timed(cfg, s, Placed(cfg, s, sp, now), sp.traceID == id, now, id)
  {
    hide Verdict;
  }

  /** What a step makes of the times of a buffered trace. */
  ghost predicate TimesAfter(cfg: Config, w: World, step: Step, id: TraceID, t: World) {
    if step.Seal? && id in step.due then id !in t.s.pending
    else if Buffers(cfg, w, step, id) then
      && id in t.s.pending && t.s.pending[id].last == step.now
      && t.s.pending[id].first == if id in w.s.pending then w.s.pending[id].first else step.now
    else (id in t.s.pending <==> id in w.s.pending) && (id in w.s.pending ==> t.s.pending[id] == w.s.pending[id])
  }

  lemma StepTimes(cfg: Config, w: World, step: Step, id: TraceID)
    requires Enabled(w, step)
    ensures TimesAfter(cfg, w, step, id, After(cfg, w, step))
  {
    hide CanSettle, AfterAccept, AfterSettle, AfterSeal, Sealed, Expired, B.Swept, B.Allowed, Buffers, Spread;
    match step
    case Accept(spans, now) => AcceptTimes(cfg, w, spans, now, id);
    case Seal(due, aged) =>
      SealTimes(w, due, aged);
      NotBuffering(cfg, w, step, id);
    case Settle(x, keep) =>
      SettledIs(cfg, w, x, keep);
      NotBuffering(cfg, w, step, id);
    case _ => NotBuffering(cfg, w, step, id);
  }

  lemma NotBuffering(cfg: Config, w: World, step: Step, id: TraceID)
    requires !step.Accept?
    ensures !Buffers(cfg, w, step, id)
  {
  }

  lemma SealTimes(w: World, due: set<TraceID>, aged: nat)
    ensures AfterSeal(w, due, aged).s.pending == w.s.pending - due
  {
    hide Spread, PendingSpans, Only;
  }

  lemma AcceptTimes(cfg: Config, w: World, spans: seq<Span>, now: int, id: TraceID)
    ensures TimesAfter(cfg, w, Step.Accept(spans, now), id, AfterAccept(cfg, w, spans, now))
  {
    hide PlacedAll, Held, Following, Verdict;
    PlacedTimes(cfg, w.s, spans, now, id);
  }

  /** How long a trace has been quiet and how old it is are counted from what
      happened: at every moment of every run, the times of a buffered trace are the
      readings of the first and of the latest batch that put a span of it into the
      buffer since it was last sealed. */
  lemma {:induction false} BufferedSince(cfg: Config, ws: seq<World>, steps: seq<Step>, i: nat, id: TraceID, clock: int)
    returns (first: nat, last: nat)
    requires IsRun(cfg, ws, steps) && ws[0] == Start(clock) && i < |ws| && id in ws[i].s.pending
    ensures first <= last < i
    ensures Buffers(cfg, ws[first], steps[first], id) && ws[i].s.pending[id].first == steps[first].now
    ensures Buffers(cfg, ws[last], steps[last], id) && ws[i].s.pending[id].last == steps[last].now
    ensures id !in ws[first].s.pending && forall k :: first < k <= i ==> id in ws[k].s.pending
    ensures forall k :: last < k < i ==> !Buffers(cfg, ws[k], steps[k], id)
    ensures forall k :: first <= k < i && steps[k].Seal? ==> id !in steps[k].due
  {
    hide Enabled, After, Buffers, TimesAfter;
    if i == 0 {
      assert false;
    } else {
      var w, step := ws[i - 1], steps[i - 1];
      StepTimes(cfg, w, step, id);
      TimesAre(cfg, w, step, id, ws[i]);
      if id in w.s.pending {
        first, last := BufferedSince(cfg, ws, steps, i - 1, id, clock);
        if Buffers(cfg, w, step, id) {
          last := i - 1;
        }
      } else {
        first, last := i - 1, i - 1;
      }
    }
  }

  lemma TimesAre(cfg: Config, w: World, step: Step, id: TraceID, t: World)
    requires TimesAfter(cfg, w, step, id, t) && id in t.s.pending
    ensures !(step.Seal? && id in step.due)
    ensures Buffers(cfg, w, step, id) ==>
              && t.s.pending[id].last == step.now
              && t.s.pending[id].first == if id in w.s.pending then w.s.pending[id].first else step.now
    ensures !Buffers(cfg, w, step, id) ==> id in w.s.pending && t.s.pending[id] == w.s.pending[id]
  {
    hide Buffers;
    if !step.Accept? {
      NotBuffering(cfg, w, step, id);
    }
  }
}
