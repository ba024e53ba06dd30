/** A search by index against a search by scan, over every store that writes and
    evictions can reach. */
module Search {
  import opened Trace
  import opened Query
  import opened Indexes

  /** What a trace has to do to match, with no index in sight. */
  predicate Matches(q: Query, e: Entry) {
    && q.Overlaps(e.start, e.end)
    && (q.HasSpanPredicate() ==> exists i :: 0 <= i < |e.spans| && q.MatchesSpan(e.spans[i]))
  }

  function FullScan(st: Store, q: Query): set<TraceID> {
    set id | id in st.traces && Matches(q, st.traces[id])
  }

  /** A scan finds exactly the traces that overlap the window, so far as its ends
      are given, and of which, if a service or a bound on durations is given, some
      one span has the service, the name and a duration within the bounds. */
  lemma ScanFinds(st: Store, q: Query, id: TraceID)
    ensures id in FullScan(st, q) <==>
              && id in st.traces
              && (q.start.Some? ==> q.start.value <= st.traces[id].end)
              && (q.end.Some? ==> st.traces[id].start <= q.end.value)
              && (q.service != [] || q.minDuration > 0 || q.maxDuration > 0 ==>
                   exists s :: s in st.traces[id].spans
                     && (q.service == [] || q.service == s.service)
                     && (q.operation == [] || q.operation == s.name)
                     && q.minDuration <= s.end - s.start
                     && (q.maxDuration <= 0 || s.end - s.start <= q.maxDuration))
  {
    if id in st.traces {
      var e := st.traces[id];
      assert (exists i :: 0 <= i < |e.spans| && q.MatchesSpan(e.spans[i])) <==> exists s :: s in e.spans && q.MatchesSpan(s);
    }
  }

  function Bucket<K>(index: Index<K>, key: K): set<TraceID> {
    if key in index then index[key] else {}
  }

  /** Whether the search goes by the minute index. */
  predicate ByMinutes(q: Query) {
    && q.operation == [] && q.service == []
    && q.start.Some? && q.end.Some?
    && Minute(q.end.value) - Minute(q.start.value) <= MINUTE_INDEX_LIMIT
  }

  /** The minutes it looks under: the window, widened back by a day. */
  predicate InWindow(q: Query, m: int)
    requires ByMinutes(q)
  {
    Minute(q.start.value) - MINUTE_INDEX_LIMIT <= m <= Minute(q.end.value)
  }

  ghost function Candidates(st: Store, q: Query): set<TraceID>
    requires |st.byDuration| == BUCKETS
  {
    if q.operation != [] then Bucket(st.byOperation, OpKey(q.service, q.operation))
    else if q.service != [] then Bucket(st.byService, q.service)
    else if ByMinutes(q) then
      set m, id | m in st.byMinute && InWindow(q, m) && id in st.byMinute[m] :: id
    else if q.minDuration > 0 then
      set b, id | DurationBucket(q.minDuration) <= b < BUCKETS && id in st.byDuration[b] :: id
    else st.traces.Keys
  }

  /** What Find keeps: the candidates that match. */
  ghost function Found(st: Store, q: Query): set<TraceID>
    requires |st.byDuration| == BUCKETS
  {
    set id | id in Candidates(st, q) && id in st.traces && Matches(q, st.traces[id])
  }

  // ------------------------------------------------------- index equals scan

  lemma SpanIsFiled(st: Store, id: TraceID, i: nat)
    requires Agrees(st) && id in st.traces && i < |st.traces[id].spans|
    ensures SpanFiled(id, st.traces[id], i)
  {
    assert EntryOk(id, st.traces[id]);
  }

  /** The service, operation and duration indexes, and no index at all, never
      miss a match. */
  lemma OtherIndexesAreExact(st: Store, q: Query)
    requires Agrees(st) && q.Valid() && !ByMinutes(q)
    ensures Found(st, q) == FullScan(st, q)
  {
    hide Minute, DurationBucket, EntryOk;
    forall id | id in FullScan(st, q)
      ensures id in Candidates(st, q)
    {
      if q.HasSpanPredicate() {
        var e := st.traces[id];
        var i :| 0 <= i < |e.spans| && q.MatchesSpan(e.spans[i]);
        MatchIsCandidate(st, q, id, i);
      }
    }
    hide Candidates, Matches;
  }

  /** A trace with a span that matches is where the chosen index looks. */
  lemma MatchIsCandidate(st: Store, q: Query, id: TraceID, i: nat)
    requires Agrees(st) && q.Valid() && !ByMinutes(q) && id in st.traces
    requires i < |st.traces[id].spans| && q.MatchesSpan(st.traces[id].spans[i])
    ensures id in Candidates(st, q)
  {
    hide Minute, DurationBucket, EntryOk;
    var s := st.traces[id].spans[i];
    SpanIsFiled(st, id, i);
    if q.operation != [] {
      assert OpOf(s) in OperationKeys(st.traces)[id];
    } else if q.service != [] {
      assert s.service in ServiceKeys(st.traces)[id];
    } else if q.minDuration > 0 {
      DurationFloor(q.minDuration, s.Duration());
      var b := DurationBucket(s.Duration());
      assert b in DurationKeys(st.traces)[id];
      assert id in st.byDuration[b];
    }
  }

  lemma DurationFloor(least: int, d: int)
    requires least <= d
    ensures DurationBucket(least) <= DurationBucket(d)
  {
    if least > 0 {
      BitLenMonotone(least, d);
    }
  }

  /** A trace no stretch of which, longer than the widening, lacks a span start:
      every moment of it has a recorded start minute within the day before. */
  ghost predicate NoLongGap(e: Entry) {
    forall x: Int64 :: e.start <= x <= e.end ==>
      exists m :: m in e.minutes && Minute(x) - MINUTE_INDEX_LIMIT <= m <= Minute(x)
  }

  lemma InMinuteCandidates(st: Store, q: Query, id: TraceID)
    requires Agrees(st) && ByMinutes(q) && id in st.traces
    ensures id in Candidates(st, q) <==> exists m :: m in st.traces[id].minutes && InWindow(q, m)
  {
    if m :| m in st.traces[id].minutes && InWindow(q, m) {
      assert m in MinuteKeys(st.traces)[id];
      assert id in st.byMinute[m];
    }
    if id in Candidates(st, q) {
      var m :| m in st.byMinute && InWindow(q, m) && id in st.byMinute[m];
      assert m in MinuteKeys(st.traces)[id];
    }
  }

  lemma GaplessIsFound(st: Store, q: Query, id: TraceID)
    requires Agrees(st) && q.Valid() && ByMinutes(q) && id in FullScan(st, q)
    requires NoLongGap(st.traces[id])
    ensures id in Candidates(st, q)
  {
    hide Minute;
    InMinuteCandidates(st, q, id);
    var e := st.traces[id];
    assert EntryOk(id, e);
    var qs, qe := q.start.value, q.end.value;
    MinuteMonotone(qs, qe);
    if e.start >= qs {
      MinuteMonotone(qs, e.start);
      MinuteMonotone(e.start, qe);
      assert InWindow(q, Minute(e.start));
    } else {
      var m :| m in e.minutes && Minute(qs) - MINUTE_INDEX_LIMIT <= m <= Minute(qs);
      assert InWindow(q, m);
    }
  }

  /** A search of one instant, for traces of any service. */
  function Instant(x: Int64): Query {
    Query([], [], 0, 0, Some(x), Some(x), 0)
  }

  /** On the minute index, every search of a store agrees with a scan if and only
      if no trace in it has a long gap between span starts. */
  lemma MinuteIndexIsExact(st: Store)
    requires Agrees(st)
    ensures (forall q: Query :: q.Valid() && ByMinutes(q) ==> Found(st, q) == FullScan(st, q))
       <==> (forall id :: id in st.traces ==> NoLongGap(st.traces[id]))
  {
    hide Minute;
    if forall id :: id in st.traces ==> NoLongGap(st.traces[id]) {
      forall q: Query | q.Valid() && ByMinutes(q)
        ensures Found(st, q) == FullScan(st, q)
      {
        forall id | id in FullScan(st, q)
          ensures id in Candidates(st, q)
        {
          GaplessIsFound(st, q, id);
        }
      }
    } else {
      var id :| id in st.traces && !NoLongGap(st.traces[id]);
      var e := st.traces[id];
      var x: Int64 :| e.start <= x <= e.end &&
        !exists m :: m in e.minutes && Minute(x) - MINUTE_INDEX_LIMIT <= m <= Minute(x);
      var q := Instant(x);
      assert q.Valid() && ByMinutes(q) && Matches(q, e);
      InMinuteCandidates(st, q, id);
      if m :| m in e.minutes && InWindow(q, m) {
        assert false;
      }
      assert id in FullScan(st, q) && id !in Found(st, q);
    }
  }

  /** A day of nanoseconds. */
  const DAY := 86_400_000_000_000

  /** A trace no longer than the widening has no long gap. */
  lemma DayLongTraceHasNoGap(id: TraceID, e: Entry)
    requires EntryOk(id, e)
    requires e.end - e.start <= DAY
    ensures NoLongGap(e)
  {
    forall x: Int64 | e.start <= x <= e.end
      ensures exists m :: m in e.minutes && Minute(x) - MINUTE_INDEX_LIMIT <= m <= Minute(x)
    {
      MinuteMonotone(e.start, x);
      MinuteOfYesterday(e.start, x);
      assert Minute(e.start) in e.minutes;
    }
  }

  /** The search Find promises, for every valid query: the scan, provided that
      whatever the minute index is used on has no long gap. */
  lemma FoundIsScan(st: Store, q: Query)
    requires Agrees(st) && q.Valid()
    requires ByMinutes(q) ==> forall id :: id in st.traces ==> NoLongGap(st.traces[id])
    ensures Found(st, q) == FullScan(st, q)
  {
    if ByMinutes(q) {
      MinuteIndexIsExact(st);
    } else {
      OtherIndexesAreExact(st, q);
    }
  }

  // ------------------------------------------------------------ reachability

  function Expired(st: Store, cutoff: int): set<TraceID> {
    set id | id in st.traces && st.traces[id].end < cutoff
  }

  ghost function InsertedAll(st: Store, spans: seq<Span>): (r: Store)
    requires Agrees(st) && AllValid(spans)
    ensures Agrees(r)
  {
    if spans == [] then st
    else
      var before := InsertedAll(st, spans[..|spans| - 1]);
      var s := spans[|spans| - 1];
      InsertedAgrees(before, s);
      Inserted(before, s)
  }

  datatype Event = Wrote(spans: seq<Span>) | Evicted(cutoff: int)

  ghost predicate EventOk(e: Event) {
    e.Wrote? ==> AllValid(e.spans)
  }

  ghost function Stepped(st: Store, e: Event): (r: Store)
    requires Agrees(st) && EventOk(e)
    ensures Agrees(r)
  {
    match e
    case Wrote(spans) => InsertedAll(st, spans)
    case Evicted(cutoff) =>
      RemovedAgrees(st, Expired(st, cutoff));
      Removed(st, Expired(st, cutoff))
  }

  /** The store after any run of writes and evictions. Its indexes agree with
      its traces, whatever the run. */
  ghost function Reached(events: seq<Event>): (st: Store)
    requires forall i :: 0 <= i < |events| ==> EventOk(events[i])
    ensures Agrees(st)
  {
    if events == [] then Empty()
    else Stepped(Reached(events[..|events| - 1]), events[|events| - 1])
  }

  /** Find equals the scan on every reachable store whose traces each last at
      most a day, and off the minute index on every reachable store. */
  lemma ReachedSearchIsScan(events: seq<Event>, q: Query)
    requires forall i :: 0 <= i < |events| ==> EventOk(events[i])
    requires q.Valid()
    requires ByMinutes(q) ==>
      forall id :: id in Reached(events).traces ==>
        Reached(events).traces[id].end - Reached(events).traces[id].start <= DAY
    ensures Found(Reached(events), q) == FullScan(Reached(events), q)
  {
    var st := Reached(events);
    if ByMinutes(q) {
      forall id | id in st.traces
        ensures NoLongGap(st.traces[id])
      {
        DayLongTraceHasNoGap(id, st.traces[id]);
      }
    }
    FoundIsScan(st, q);
  }

  const LONG_SPAN := Span(
    [1, 0, 0, 0, 0, 0, 0, 0, 0, 0, 0, 0, 0, 0, 0, 0], [1, 0, 0, 0, 0, 0, 0, 0], ZERO_SPAN,
    [97], 1, [98], 0, DAY + 60_000_000_000, 0, [], [], [])

  /** Past a day the minute index does miss traces: any one span longer than
      the widening, searched for at the moment it ends. */
  lemma LongSpanIsMissed(s: Span)
    requires s.Valid() && Minute(s.end) - Minute(s.start) > MINUTE_INDEX_LIMIT
    ensures Instant(s.end).Valid()
    ensures var st := Reached([Wrote([s])]);
            FullScan(st, Instant(s.end)) == {s.traceID} && Found(st, Instant(s.end)) == {}
  {
    hide Reached, Inserted, FullScan, Found, Minute, Agrees;
    OneWrite(s);
    OneWriteKeys(s);
    LonelyTraceIsMissed(Reached([Wrote([s])]), s.traceID);
  }

  lemma LonelyTraceIsMissed(st: Store, id: TraceID)
    requires Agrees(st) && st.traces.Keys == {id}
    requires var e := st.traces[id];
             e.minutes == {Minute(e.start)} && Minute(e.end) - Minute(e.start) > MINUTE_INDEX_LIMIT
    ensures var q := Instant(st.traces[id].end);
            FullScan(st, q) == {id} && Found(st, q) == {}
  {
    var e := st.traces[id];
    var q := Instant(e.end);
    assert e.start <= e.end by { assert EntryOk(id, e); }
    hide Candidates, EntryOk, Minute, IndexAgrees, BucketsAgree;
    InMinuteCandidates(st, q, id);
  }

  /** For instance, a span of a day and a minute. */
  lemma LongTraceIsMissed()
    ensures LONG_SPAN.Valid()
    ensures var st := Reached([Wrote([LONG_SPAN])]);
            Found(st, Instant(LONG_SPAN.end)) != FullScan(st, Instant(LONG_SPAN.end))
  {
    hide Reached, FullScan, Found;
    LongSpanIsMissed(LONG_SPAN);
  }

  lemma OneWrite(s: Span)
    requires s.Valid()
    ensures Reached([Wrote([s])]) == Inserted(Empty(), s)
  {
    hide Inserted, Agrees;
    assert [Wrote([s])][..0] == [] && [s][..0] == [];
    assert Reached([]) == Empty() && InsertedAll(Empty(), []) == Empty();
  }

  lemma OneWriteKeys(s: Span)
    ensures Inserted(Empty(), s).traces.Keys == {s.traceID}
    ensures var e := Inserted(Empty(), s).traces[s.traceID];
            e.minutes == {Minute(s.start)} && e.start == s.start && e.end == s.end
  {
    hide Minute, DurationBucket, IndexAgrees, BucketsAgree;
  }

  // --------------------------------------------------------- last write wins

  function LastCopy(log: seq<Span>, id: TraceID, sid: SpanID): Option<Span> {
    if log == [] then None
    else
      var s := log[|log| - 1];
      if s.traceID == id && s.spanID == sid then Some(s) else LastCopy(log[..|log| - 1], id, sid)
  }

  function Lookup(st: Store, id: TraceID, sid: SpanID): Option<Span> {
    if id in st.traces && sid in st.traces[id].bySpan
       && st.traces[id].bySpan[sid] < |st.traces[id].spans|
    then Some(st.traces[id].spans[st.traces[id].bySpan[sid]])
    else None
  }

  lemma LookupAfterInsert(st: Store, s: Span, id: TraceID, sid: SpanID)
    requires Agrees(st)
    ensures Lookup(Inserted(st, s), id, sid) ==
            if s.traceID == id && s.spanID == sid then Some(s) else Lookup(st, id, sid)
  {
    hide DurationBucket, Minute, AddTo, IndexAgrees, BucketsAgree;
    if s.traceID in st.traces {
      var e := st.traces[s.traceID];
      assert EntryOk(s.traceID, e);
    }
  }

  /** Whatever was written, a span identifier holds the last copy written. */
  lemma {:induction false} LastWriteWins(log: seq<Span>, id: TraceID, sid: SpanID)
    requires AllValid(log)
    ensures Lookup(InsertedAll(Empty(), log), id, sid) == LastCopy(log, id, sid)
  {
    if log != [] {
      var before := log[..|log| - 1];
      LastWriteWins(before, id, sid);
      LookupAfterInsert(InsertedAll(Empty(), before), log[|log| - 1], id, sid);
    }
  }

  ghost predicate Ranges(log: seq<Span>, id: TraceID, start: int, end: int) {
    && (forall i :: 0 <= i < |log| && log[i].traceID == id ==> start <= log[i].start && log[i].end <= end)
    && (exists i :: 0 <= i < |log| && log[i].traceID == id && log[i].start == start)
    && (exists i :: 0 <= i < |log| && log[i].traceID == id && log[i].end == end)
  }

  /** A stored trace starts and ends with the earliest start and the latest end of
      everything written for it, copies since replaced included. */
  lemma {:induction false} BoundsAreWritten(log: seq<Span>, id: TraceID)
    requires AllValid(log)
    ensures var st := InsertedAll(Empty(), log);
            && (id in st.traces <==> exists i :: 0 <= i < |log| && log[i].traceID == id)
            && (id in st.traces ==> Ranges(log, id, st.traces[id].start, st.traces[id].end))
  {
    if log != [] {
      var n := |log| - 1;
      var before, s := log[..n], log[n];
      assert log == before + [s];
      BoundsAreWritten(before, id);
      var st := InsertedAll(Empty(), before);
      BoundsAfterInsert(st, s, id);
      hide InsertedAll, Inserted, Agrees, Ranges;
      if id in st.traces {
        RangesMore(before, s, id, st.traces[id].start, st.traces[id].end);
      } else {
        FirstRange(before, s, id);
      }
    }
  }

  lemma BoundsAfterInsert(st: Store, s: Span, id: TraceID)
    requires Agrees(st) && s.start <= s.end
    ensures var t := Inserted(st, s).traces;
            if s.traceID != id then
              (id in t <==> id in st.traces) && (id in st.traces ==> t[id] == st.traces[id])
            else if id in st.traces then
              && id in t
              && t[id].start == (if s.start < st.traces[id].start then s.start else st.traces[id].start)
              && t[id].end == (if s.end > st.traces[id].end then s.end else st.traces[id].end)
            else id in t && t[id].start == s.start && t[id].end == s.end
  {
    hide DurationBucket, Minute, AddTo, Agrees;
    if s.traceID in st.traces {
      CanGrow(st, s);
    }
  }

  lemma RangesMore(log: seq<Span>, s: Span, id: TraceID, a: int, b: int)
    requires Ranges(log, id, a, b)
    ensures if s.traceID == id then
              Ranges(log + [s], id, if s.start < a then s.start else a, if s.end > b then s.end else b)
            else Ranges(log + [s], id, a, b)
    ensures exists i :: 0 <= i < |log + [s]| && (log + [s])[i].traceID == id
  {
    var more := log + [s];
    assert more[|log|] == s && forall i :: 0 <= i < |log| ==> more[i] == log[i];
    var i :| 0 <= i < |log| && log[i].traceID == id && log[i].start == a;
    var j :| 0 <= j < |log| && log[j].traceID == id && log[j].end == b;
    assert more[i] == log[i] && more[j] == log[j];
  }

  lemma FirstRange(log: seq<Span>, s: Span, id: TraceID)
    requires forall i :: 0 <= i < |log| ==> log[i].traceID != id
    ensures s.traceID == id ==> Ranges(log + [s], id, s.start, s.end)
    ensures s.traceID == id <==> exists i :: 0 <= i < |log + [s]| && (log + [s])[i].traceID == id
  {
    var more := log + [s];
    assert more[|log|] == s && forall i :: 0 <= i < |log| ==> more[i] == log[i];
  }

  lemma {:induction false} InsertedAllAppends(st: Store, a: seq<Span>, b: seq<Span>)
    requires Agrees(st) && AllValid(a) && AllValid(b)
    ensures AllValid(a + b)
    ensures InsertedAll(st, a + b) == InsertedAll(InsertedAll(st, a), b)
    decreases |b|
  {
    hide Inserted, Agrees;
    if b == [] {
      assert a + b == a;
    } else {
      var b' := b[..|b| - 1];
      assert (a + b)[..|a + b| - 1] == a + b';
      InsertedAllAppends(st, a, b');
    }
  }
}
