/** The sampler as a state machine. Each section that holds the lock, and each
    call to the writer, is one step; steps of any number of callers interleave
    freely, and time may pass between any two. Clock readings that are taken
    before the lock may lag. */
module Sampling {
  import opened Trace
  import opened Verdicts
  import B = Buckets

  datatype Config = Config(
    quiet: int,
    maxAge: int,
    maxSpans: int,
    remember: int,
    maxDecisions: int,
    limits: B.Limits)
  {
    /** What New demands. */
    predicate Valid() {
      && quiet > 0 && maxAge >= quiet && maxSpans > 0
      && remember >= 0 && (remember > 0 ==> maxDecisions > 0)
      && limits.rate >= 0.0 && (limits.rate > 0.0 ==> limits.burst >= 1)
    }
  }

  datatype Pending = Pending(spans: seq<Span>, first: int, last: int)

  datatype Stats = Stats(
    accepted: int, refused: int, buffered: int,
    kept: int, dropped: int, keptSpans: int, droppedSpans: int,
    sealedByAge: int, lost: int, lateKept: int, lateDropped: int)

  /** What the lock protects. */
  datatype State = State(
    pending: map<TraceID, Pending>,
    judging: map<TraceID, seq<Span>>,
    late: map<TraceID, seq<Span>>,
    verdicts: Verdicts,
    buckets: B.Buckets,
    stats: Stats)

  /** The state, what the callers hold outside the lock, and an account of
      everything that ever happened. A trace being judged is taken until the
      writer answers, if it is asked to write it, and then stored or denied until
      its verdict is settled. A late batch is flying until the writer answers, and
      if it is refused, refused until that is counted. charges is every use of the
      allowances, and reading the latest time any of them went by. */
  datatype World = World(
    s: State,
    clock: int,
    taken: map<TraceID, seq<Span>>,
    stored: map<TraceID, seq<Span>>,
    denied: map<TraceID, seq<Span>>,
    flying: seq<seq<Span>>,
    refused: seq<seq<Span>>,
    accepted: seq<Span>,
    queued: seq<Span>,
    discarded: seq<Span>,
    written: seq<Span>,
    lost: seq<Span>,
    dropped: seq<Span>,
    log: seq<Settled>,
    charges: seq<B.Event>,
    reading: int)

  // -------------------------------------------------------------- accepting

  /** The verdict a span of this trace follows, if the trace has one. */
  function Verdict(cfg: Config, s: State, id: TraceID, now: int): Option<bool> {
    if id in s.judging then None
    else if id in s.verdicts.decided && now - s.verdicts.decided[id].at < cfg.remember
    then Some(s.verdicts.decided[id].keep)
    else None
  }

  /** How many of the spans take room in the buffer. */
  function Held(cfg: Config, s: State, spans: seq<Span>, now: int): nat {
    if spans == [] then 0
    else
      var n := |spans| - 1;
      Held(cfg, s, spans[..n], now)
      + if Verdict(cfg, s, spans[n].traceID, now) == Some(false) then 0 else 1
  }

  function Appended(m: map<TraceID, seq<Span>>, sp: Span): map<TraceID, seq<Span>> {
    m[sp.traceID := (if sp.traceID in m then m[sp.traceID] else []) + [sp]]
  }

  function Placed(cfg: Config, s: State, sp: Span, now: int): State {
    var id := sp.traceID;
    if id in s.judging then s.(judging := Appended(s.judging, sp))
    else
      match Verdict(cfg, s, id, now)
      case Some(keep) =>
        if keep then s.(late := Appended(s.late, sp), stats := s.stats.(lateKept := s.stats.lateKept + 1))
        else s.(stats := s.stats.(lateDropped := s.stats.lateDropped + 1))
      case None =>
        var p := if id in s.pending then s.pending[id] else Pending([], now, now);
        s.(pending := s.pending[id := Pending(p.spans + [sp], p.first, now)])
  }

  function PlacedAll(cfg: Config, s: State, spans: seq<Span>, now: int): State {
    if spans == [] then s
    else
      var n := |spans| - 1;
      Placed(cfg, PlacedAll(cfg, s, spans[..n], now), spans[n], now)
  }

  datatype AcceptResult = Taken | SinkFull | BatchTooLarge

  function AcceptOutcome(cfg: Config, s: State, spans: seq<Span>, now: int): AcceptResult {
    if |spans| > cfg.maxSpans then BatchTooLarge
    else if s.stats.buffered + Held(cfg, s, spans, now) > cfg.maxSpans then SinkFull
    else Taken
  }

  function Accepted(cfg: Config, s: State, spans: seq<Span>, now: int): State {
    match AcceptOutcome(cfg, s, spans, now)
    case BatchTooLarge => s
    case SinkFull => s.(stats := s.stats.(refused := s.stats.refused + |spans|))
    case Taken =>
      var t := PlacedAll(cfg, s, spans, now);
      t.(stats := t.stats.(accepted := t.stats.accepted + |spans|,
                           buffered := t.stats.buffered + Held(cfg, s, spans, now)))
  }

  /** The spans of a batch that follow a verdict of the given kind. */
  function Following(cfg: Config, s: State, spans: seq<Span>, now: int, keep: bool): seq<Span> {
    if spans == [] then []
    else
      var n := |spans| - 1;
      Following(cfg, s, spans[..n], now, keep)
      + if Verdict(cfg, s, spans[n].traceID, now) == Some(keep) then [spans[n]] else []
  }

  // ---------------------------------------------------------------- judging

  function PendingSpans(pending: map<TraceID, Pending>): map<TraceID, seq<Span>> {
    map id | id in pending :: pending[id].spans
  }

  function Only<V>(m: map<TraceID, V>, ids: set<TraceID>): map<TraceID, V> {
    map id | id in m && id in ids :: m[id]
  }

  /** All the spans in a map, as a bag. */
  ghost function Spread(m: map<TraceID, seq<Span>>): multiset<Span>
    decreases |m|
  {
    if m == map[] then multiset{}
    else
      var id :| id in m;
      assert (m - {id}).Keys == m.Keys - {id};
      Spread(m - {id}) + multiset(m[id])
  }

  /** Traces with no span waiting. */
  function Emptied(due: set<TraceID>): map<TraceID, seq<Span>> {
    map id | id in due :: []
  }

  /** The locked section of judge: the due traces leave the buffer. */
  ghost function Sealed(s: State, due: set<TraceID>): State {
    State(
      s.pending - due,
      s.judging + Emptied(due),
      s.late, s.verdicts, s.buckets,
      s.stats.(buffered := s.stats.buffered - |Spread(PendingSpans(Only(s.pending, due)))|))
  }

  /** settle: the spans that came while the trace was judged follow the
      verdict, which is then remembered. */
  function Followed(cfg: Config, s: State, id: TraceID, keep: bool, now: int): State {
    var waiting := Waiting(s, id);
    var st := s.stats;
    State(
      s.pending,
      s.judging - {id},
      if waiting == [] || !keep then s.late
      else s.late[id := (if id in s.late then s.late[id] else []) + waiting],
      if cfg.remember <= 0 then s.verdicts
      else Trimmed(Noted(s.verdicts, id, keep, now), cfg.maxDecisions),
      s.buckets,
      if waiting == [] then st
      else if keep then st.(lateKept := st.lateKept + |waiting|)
      else st.(buffered := st.buffered - |waiting|, lateDropped := st.lateDropped + |waiting|))
  }

  /** The counters of a verdict on a trace of n spans. */
  function VerdictCounted(st: Stats, keep: bool, ok: bool, n: nat): Stats {
    if !keep then st.(dropped := st.dropped + 1, droppedSpans := st.droppedSpans + n)
    else if !ok then st.(lost := st.lost + n)
    else st.(kept := st.kept + 1, keptSpans := st.keptSpans + n)
  }

  /** The locked section of decide. */
  function Judged(cfg: Config, s: State, id: TraceID, keep: bool, ok: bool, n: nat, now: int): State {
    var t := Followed(cfg, s, id, keep, now);
    t.(stats := VerdictCounted(t.stats, keep, ok, n))
  }

  // ------------------------------------------------------------------ steps

  datatype Step =
    | Tick(now: int)
    | Accept(spans: seq<Span>, now: int)
    | Seal(due: set<TraceID>, aged: nat)
    | Allow(service: Text, now: int)
    | Write(id: TraceID, ok: bool)
    | Settle(id: TraceID, keep: bool)
    | Forget(now: int)
    | TakeLate(batches: seq<seq<Span>>)
    | WriteLate(i: nat, ok: bool)
    | CountLost(i: nat)

  /** A trace that is kept is settled once the writer has answered, and one that
      is not is settled unwritten. */
  ghost predicate CanSettle(w: World, id: TraceID, keep: bool) {
    if keep then id in w.stored || id in w.denied else id in w.taken
  }

  /** What has to hold for a step to happen: a clock reading is not from the
      future, and those that allowances go by come in order, because one runner
      takes them; only buffered traces are sealed; only traces in hand are written
      and settled; and the late batches taken are exactly those queued. */
  ghost predicate Enabled(w: World, step: Step) {
    match step
    case Tick(now) => now >= w.clock
    case Accept(_, now) => now <= w.clock
    case Seal(due, _) => due <= w.s.pending.Keys
    case Allow(_, now) => w.reading <= now <= w.clock
    case Write(id, _) => id in w.taken
    case Settle(id, keep) => CanSettle(w, id, keep)
    case Forget(now) => now <= w.clock
    case TakeLate(batches) => multiset(Joined(batches)) == Spread(w.s.late)
    case WriteLate(i, _) => i < |w.flying|
    case CountLost(i) => i < |w.refused|
  }

  function Joined(batches: seq<seq<Span>>): seq<Span> {
    if batches == [] then [] else Joined(batches[..|batches| - 1]) + batches[|batches| - 1]
  }

  ghost function AfterAccept(cfg: Config, w: World, spans: seq<Span>, now: int): World {
    var s := Accepted(cfg, w.s, spans, now);
    if AcceptOutcome(cfg, w.s, spans, now) != Taken then w.(s := s)
    else
      w.(s := s,
         accepted := w.accepted + spans,
         queued := w.queued + Following(cfg, w.s, spans, now, true),
         discarded := w.discarded + Following(cfg, w.s, spans, now, false))
  }

  ghost function AfterSeal(w: World, due: set<TraceID>, aged: nat): World {
    var s := Sealed(w.s, due);
    w.(s := s.(stats := s.stats.(sealedByAge := s.stats.sealedByAge + aged)),
       taken := w.taken + PendingSpans(Only(w.s.pending, due)))
  }

  function Waiting(s: State, id: TraceID): seq<Span> {
    if id in s.judging then s.judging[id] else []
  }

  /** The locked section of allow. */
  ghost function AfterAllow(cfg: Config, w: World, service: Text, now: int): World {
    w.(s := w.s.(buckets := B.Allowed(cfg.limits, w.s.buckets, service, now).0),
       charges := w.charges + [B.Allow(service, now)],
       reading := now)
  }

  /** The writer has answered for a trace. */
  ghost function AfterWrite(w: World, id: TraceID, ok: bool): World
    requires id in w.taken
  {
    var spans := w.taken[id];
    w.(taken := w.taken - {id},
       stored := if ok then w.stored[id := spans] else w.stored,
       denied := if ok then w.denied else w.denied[id := spans],
       written := if ok then w.written + spans else w.written)
  }

  /** The spans of a trace in hand. */
  ghost function InHand(w: World, id: TraceID): seq<Span> {
    if id in w.taken then w.taken[id]
    else if id in w.stored then w.stored[id]
    else if id in w.denied then w.denied[id]
    else []
  }

  /** The locked section of decide: the verdict is settled and counted. */
  ghost function AfterSettle(cfg: Config, w: World, id: TraceID, keep: bool): World {
    var spans, waiting, ok := InHand(w, id), Waiting(w.s, id), id in w.stored;
    w.(s := Judged(cfg, w.s, id, keep, ok, |spans|, w.clock),
       taken := w.taken - {id},
       stored := w.stored - {id},
       denied := w.denied - {id},
       queued := if keep then w.queued + waiting else w.queued,
       discarded := if keep then w.discarded else w.discarded + waiting,
       lost := if keep && !ok then w.lost + spans else w.lost,
       dropped := if keep then w.dropped else w.dropped + spans,
       log := w.log + [Settled(id, keep, w.clock)])
  }

  /** The locked section of forget. */
  ghost function AfterForget(cfg: Config, w: World, now: int): World {
    w.(s := w.s.(verdicts := Expired(w.s.verdicts, now, cfg.remember),
                 buckets := B.Swept(cfg.limits, w.s.buckets, now)),
       charges := w.charges + [B.Sweep(now)],
       reading := B.Later(w.reading, B.Sweep(now)))
  }

  ghost function AfterTakeLate(w: World, batches: seq<seq<Span>>): World {
    w.(s := w.s.(late := map[], stats := w.s.stats.(buffered := w.s.stats.buffered - |Joined(batches)|)),
       flying := w.flying + batches)
  }

  /** The writer has answered for a late batch. */
  ghost function AfterWriteLate(w: World, i: nat, ok: bool): World
    requires i < |w.flying|
  {
    var batch := w.flying[i];
    w.(flying := w.flying[..i] + w.flying[i + 1..],
       refused := if ok then w.refused else w.refused + [batch],
       written := if ok then w.written + batch else w.written)
  }

  /** The locked section after a refused late write. */
  ghost function AfterCountLost(w: World, i: nat): World
    requires i < |w.refused|
  {
    var batch := w.refused[i];
    w.(s := w.s.(stats := w.s.stats.(lost := w.s.stats.lost + |batch|)),
       refused := w.refused[..i] + w.refused[i + 1..],
       lost := w.lost + batch)
  }

  ghost function After(cfg: Config, w: World, step: Step): World
    requires Enabled(w, step)
  {
    match step
    case Tick(now) => w.(clock := now)
    case Accept(spans, now) => AfterAccept(cfg, w, spans, now)
    case Seal(due, aged) => AfterSeal(w, due, aged)
    case Allow(service, now) => AfterAllow(cfg, w, service, now)
    case Write(id, ok) => AfterWrite(w, id, ok)
    case Settle(id, keep) => AfterSettle(cfg, w, id, keep)
    case Forget(now) => AfterForget(cfg, w, now)
    case TakeLate(batches) => AfterTakeLate(w, batches)
    case WriteLate(i, ok) => AfterWriteLate(w, i, ok)
    case CountLost(i) => AfterCountLost(w, i)
  }

  const START_STATS := Stats(0, 0, 0, 0, 0, 0, 0, 0, 0, 0, 0)

  function Start(clock: int): World {
    World(State(map[], map[], map[], Verdicts(map[], []), map[], START_STATS), clock,
          map[], map[], map[], [], [], [], [], [], [], [], [], [], [], clock)
  }

  // -------------------------------------------------------- adding up a map

  lemma {:induction false} SpreadRemove(m: map<TraceID, seq<Span>>, id: TraceID)
    requires id in m
    ensures Spread(m) == Spread(m - {id}) + multiset(m[id])
    decreases |m|
  {
    var x :| x in m && Spread(m) == Spread(m - {x}) + multiset(m[x]);
    if x != id {
      var rest := m - {x};
      assert rest.Keys == m.Keys - {x};
      SpreadRemove(rest, id);
      assert (m - {id}).Keys == m.Keys - {id};
      SpreadRemove(m - {id}, x);
      assert rest - {id} == (m - {id}) - {x};
    }
  }

  lemma SpreadPut(m: map<TraceID, seq<Span>>, id: TraceID, spans: seq<Span>)
    ensures Spread(m[id := spans]) == Spread(m - {id}) + multiset(spans)
  {
    SpreadRemove(m[id := spans], id);
    assert m[id := spans] - {id} == m - {id};
  }

  /** Appending to one entry adds just that much. */
  lemma SpreadAppend(m: map<TraceID, seq<Span>>, id: TraceID, more: seq<Span>)
    ensures Spread(m[id := (if id in m then m[id] else []) + more]) == Spread(m) + multiset(more)
  {
    hide Spread;
    var before := if id in m then m[id] else [];
    SpreadPut(m, id, before + more);
    if id in m {
      SpreadRemove(m, id);
    } else {
      assert m - {id} == m;
    }
  }

  lemma {:induction false} SpreadSplit(m: map<TraceID, seq<Span>>, ids: set<TraceID>)
    ensures Spread(m) == Spread(m - ids) + Spread(Only(m, ids))
    decreases |ids|
  {
    hide Spread;
    if ids == {} {
      assert m - ids == m && Only(m, ids) == map[];
      SpreadOfNothing();
    } else {
      var id :| id in ids;
      var rest := ids - {id};
      SpreadSplit(m, rest);
      if id in m {
        assert m - rest - {id} == m - ids;
        assert Only(m, rest) == Only(m, ids) - {id};
        SpreadRemove(m - rest, id);
        SpreadRemove(Only(m, ids), id);
      } else {
        assert m - rest == m - ids && Only(m, rest) == Only(m, ids);
      }
    }
  }

  lemma SpreadOfNothing()
    ensures Spread(map[]) == multiset{}
  {
  }

  /** Two maps with no trace in common add up. */
  lemma SpreadUnion(a: map<TraceID, seq<Span>>, b: map<TraceID, seq<Span>>)
    requires a.Keys !! b.Keys
    ensures Spread(a + b) == Spread(a) + Spread(b)
  {
    SpreadSplit(a + b, b.Keys);
    assert (a + b) - b.Keys == a;
    assert Only(a + b, b.Keys) == b;
  }
}
