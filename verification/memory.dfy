/** The in-memory store as it runs: maps and buckets updated in place. Each
    method is tied to the step of module Indexes it performs. */
module Memory {
  import opened Trace
  import opened Query
  import opened Sorting
  import opened Indexes
  import opened Search
  import opened Summary

  datatype Answer<+T> = Answered(value: T) | BadQuery | Closed | NotFound

  datatype WriteResult = Stored | Rejected | StoreClosed

  /** The summaries of some traces, as a set. */
  ghost function Summaries(st: Store, ids: set<TraceID>): set<Summary>
    requires Agrees(st)
  {
    set id | id in ids && id in st.traces && st.traces[id].spans != [] :: Summarised(id, st.traces[id])
  }

  ghost function Hits(st: Store, q: Query, ids: set<TraceID>): set<TraceID> {
    set id | id in ids && id in st.traces && Matches(q, st.traces[id])
  }

  lemma HasSpans(st: Store, id: TraceID)
    requires Agrees(st) && id in st.traces
    ensures st.traces[id].spans != []
  {
    assert EntryOk(id, st.traces[id]);
  }

  lemma OneMoreHit(st: Store, q: Query, done: set<TraceID>, id: TraceID)
    requires Agrees(st) && id !in done && id in st.traces && Matches(q, st.traces[id])
    requires st.traces[id].spans != []
    ensures multiset(Summaries(st, Hits(st, q, done + {id}))) ==
            multiset(Summaries(st, Hits(st, q, done))) + multiset{Summarised(id, st.traces[id])}
  {
    hide Agrees, Matches;
    var sum := Summarised(id, st.traces[id]);
    assert Hits(st, q, done + {id}) == Hits(st, q, done) + {id};
    assert Summaries(st, Hits(st, q, done) + {id}) == Summaries(st, Hits(st, q, done)) + {sum};
    assert sum !in Summaries(st, Hits(st, q, done));
  }

  /** What Find must return for the traces in hits: the newest ones, newest
      first, up to the limit. */
  ghost predicate IsTop(r: seq<Summary>, st: Store, hits: set<TraceID>, limit: int)
    requires Agrees(st)
  {
    exists full :: Lists(full, Summaries(st, hits), Newer) && r == if |full| > limit >= 0 then full[..limit] else full
  }

  lemma TopIsUnique(r: seq<Summary>, r': seq<Summary>, st: Store, hits: set<TraceID>, limit: int)
    requires Agrees(st) && IsTop(r, st, hits, limit) && IsTop(r', st, hits, limit)
    ensures r == r'
  {
    NewerIsStrictWeak();
    var full :| Lists(full, Summaries(st, hits), Newer) && r == if |full| > limit >= 0 then full[..limit] else full;
    var full' :| Lists(full', Summaries(st, hits), Newer) && r' == if |full'| > limit >= 0 then full'[..limit] else full';
    ListsUnique(full, full', Summaries(st, hits), Newer);
  }

  /** The same with the times and identifiers spelled out: at most the limit, each
      the summary of one of the traces, later starts first and equal ones by
      identifier; and a trace that is not among them starts no later than the last
      one that is, which fills the limit. */
  ghost predicate Newest(r: seq<Summary>, st: Store, hits: set<TraceID>, limit: int)
    requires Agrees(st)
  {
    && |r| <= limit
    && (forall i :: 0 <= i < |r| ==> IsSummaryOf(r[i], st, hits))
    && (forall i, j :: 0 <= i < j < |r| ==> r[i].start >= r[j].start)
    && (forall i, j :: 0 <= i < j < |r| && r[i].start == r[j].start ==> LexLess(r[i].traceID, r[j].traceID))
    && (forall id :: id in hits && id in st.traces && (forall i :: 0 <= i < |r| ==> r[i].traceID != id) ==>
         IsCutOff(r, id, st, limit))
  }

  ghost predicate IsCutOff(r: seq<Summary>, id: TraceID, st: Store, limit: int)
    requires id in st.traces
  {
    && |r| == limit > 0
    && var last := r[limit - 1];
       && st.traces[id].start <= last.start
       && (st.traces[id].start == last.start ==> LexLess(last.traceID, id))
  }

  ghost predicate IsSummaryOf(sum: Summary, st: Store, hits: set<TraceID>) {
    && sum.traceID in hits && sum.traceID in st.traces
    && st.traces[sum.traceID].spans != []
    && sum == Summarised(sum.traceID, st.traces[sum.traceID])
  }

  lemma TopIsNewest(r: seq<Summary>, st: Store, hits: set<TraceID>, limit: int)
    requires Agrees(st) && IsTop(r, st, hits, limit) && limit > 0
    ensures Newest(r, st, hits, limit)
  {
    hide Agrees, Summaries, Summarised;
    var full :| Lists(full, Summaries(st, hits), Newer) && r == if |full| > limit >= 0 then full[..limit] else full;
    forall i | 0 <= i < |r|
      ensures IsSummaryOf(r[i], st, hits)
    {
      assert full[i] in full;
      ListedSummary(st, hits, full[i]);
    }
    forall id | id in hits && id in st.traces && forall i :: 0 <= i < |r| ==> r[i].traceID != id
      ensures IsCutOff(r, id, st, limit)
    {
      CutOff(full, r, st, hits, limit, id);
    }
    hide Lists, IsSummaryOf, IsCutOff;
    InOrder(full, Summaries(st, hits), |r|);
  }

  lemma InOrder(full: seq<Summary>, sums: set<Summary>, n: nat)
    requires Lists(full, sums, Newer) && n <= |full|
    ensures forall i, j :: 0 <= i < j < n ==> full[i].start >= full[j].start
    ensures forall i, j :: 0 <= i < j < n && full[i].start == full[j].start ==>
              LexLess(full[i].traceID, full[j].traceID)
  {
    forall i, j | 0 <= i < j < n
      ensures Newer(full[i], full[j])
    {
    }
  }

  lemma ListedSummary(st: Store, hits: set<TraceID>, sum: Summary)
    requires Agrees(st) && sum in Summaries(st, hits)
    ensures IsSummaryOf(sum, st, hits)
  {
    hide Agrees;
  }

  lemma CutOff(full: seq<Summary>, r: seq<Summary>, st: Store, hits: set<TraceID>, limit: int, id: TraceID)
    requires Agrees(st) && Lists(full, Summaries(st, hits), Newer) && limit > 0
    requires r == if |full| > limit then full[..limit] else full
    requires id in hits && id in st.traces && forall i :: 0 <= i < |r| ==> r[i].traceID != id
    ensures IsCutOff(r, id, st, limit)
  {
    HasSpans(st, id);
    hide Agrees;
    var sum := Summarised(id, st.traces[id]);
    assert sum in Summaries(st, hits);
    hide Summaries;
    assert forall i :: 0 <= i < |r| ==> full[i].traceID != id;
    var k :| 0 <= k < |full| && full[k] == sum;
    assert Newer(full[limit - 1], full[k]);
  }

  class Memory {
    const retention: int
    var closed: bool
    var traces: map<TraceID, Entry>
    var byService: Index<Text>
    var byOperation: Index<OpKey>
    var byDuration: array<set<TraceID>>
    var byMinute: Index<int>

    ghost function View(): Store
      reads this, byDuration
    {
      Store(traces, byService, byOperation, byDuration[..], byMinute)
    }

    ghost predicate Valid()
      reads this, byDuration
    {
      byDuration.Length == BUCKETS && (if closed then traces == map[] else Agrees(View()))
    }

    constructor (retention: int)
      ensures Valid() && !closed && View() == Empty()
      ensures this.retention == retention && fresh(byDuration)
    {
      this.retention := retention;
      closed := false;
      traces, byService, byOperation, byMinute := map[], map[], map[], map[];
      byDuration := new set<TraceID>[BUCKETS](_ => {});
      new;
      assert byDuration[..] == seq(BUCKETS, _ => {});
    }

    method Insert(s: Span)
      requires Valid() && !closed && s.Valid()
      modifies this, byDuration
      ensures Valid() && !closed && byDuration == old(byDuration)
      ensures Agrees(old(View())) && View() == Inserted(old(View()), s)
    {
      hide DurationBucket, Minute, AddTo, Agrees;
      ghost var before := View();
      InsertedAgrees(before, s);
      var e := NewEntry(s);
      if s.traceID in traces {
        CanGrow(before, s);
        e := traces[s.traceID];
      }
      traces := traces[s.traceID := Grown(e, s)];
      byService := AddTo(byService, s.service, s.traceID);
      byOperation := AddTo(byOperation, OpOf(s), s.traceID);
      var b := DurationBucket(s.Duration());
      DurationBucketInRange(s);
      byDuration[b] := byDuration[b] + {s.traceID};
      byMinute := AddTo(byMinute, Minute(s.start), s.traceID);
      assert byDuration[..] == before.byDuration[b := before.byDuration[b] + {s.traceID}];
    }

    /** All of a batch goes in, or none of it. */
    method Write(spans: seq<Span>) returns (r: WriteResult)
      requires Valid()
      modifies this, byDuration
      ensures Valid() && closed == old(closed) && byDuration == old(byDuration)
      ensures r == if !AllValid(spans) then Rejected else if old(closed) then StoreClosed else Stored
      ensures r == Stored ==> Agrees(old(View())) && View() == InsertedAll(old(View()), spans)
      ensures r != Stored ==> View() == old(View())
    {
      hide Agrees, Inserted;
      for i := 0 to |spans|
        invariant forall j :: 0 <= j < i ==> spans[j].Valid()
      {
        if !spans[i].Valid() { return Rejected; }
      }
      if closed { return StoreClosed; }
      ghost var before := View();
      for i := 0 to |spans|
        invariant Valid() && !closed && byDuration == old(byDuration)
        invariant AllValid(spans[..i]) && View() == InsertedAll(before, spans[..i])
      {
        Insert(spans[i]);
        assert spans[..i + 1][..i] == spans[..i];
      }
      assert spans[..|spans|] == spans;
      r := Stored;
    }

    method CandidateIds(q: Query) returns (ids: set<TraceID>)
      requires Valid() && !closed
      ensures ids == Candidates(View(), q)
    {
      if q.operation != [] {
        return Bucket(byOperation, OpKey(q.service, q.operation));
      }
      if q.service != [] {
        return Bucket(byService, q.service);
      }
      ids := {};
      if q.start.Some? && q.end.Some? {
        var first, last := Minute(q.start.value), Minute(q.end.value);
        if last - first <= MINUTE_INDEX_LIMIT {
          var minute := first - MINUTE_INDEX_LIMIT;
          while minute <= last
            invariant ids == set m, id | m in byMinute && InWindow(q, m) && m < minute && id in byMinute[m] :: id
            decreases last + 1 - minute
          {
            ids := ids + Bucket(byMinute, minute);
            minute := minute + 1;
          }
          return;
        }
      }
      if q.minDuration > 0 {
        var b := DurationBucket(q.minDuration);
        while b < BUCKETS
          invariant ids == set c, id | DurationBucket(q.minDuration) <= c < BUCKETS && c < b && id in byDuration[c] :: id
        {
          ids := ids + byDuration[b];
          b := b + 1;
        }
        return;
      }
      ids := traces.Keys;
    }

    /** The summaries of the candidates that match, in no particular order. */
    method Collect(q: Query, ids: set<TraceID>) returns (results: seq<Summary>)
      requires Valid() && !closed
      ensures multiset(results) == multiset(Summaries(View(), Hits(View(), q, ids)))
    {
      hide Agrees, Matches, Summarised;
      results := [];
      var todo := ids;
      assert Summaries(View(), Hits(View(), q, ids - todo)) == {};
      while todo != {}
        invariant todo <= ids
        invariant multiset(results) == multiset(Summaries(View(), Hits(View(), q, ids - todo)))
      {
        var id :| id in todo;
        ghost var done := ids - todo;
        todo := todo - {id};
        assert ids - todo == done + {id};
        if id in traces && Matches(q, traces[id]) {
          HasSpans(View(), id);
          var sum := Summarise(id, traces[id]);
          results := results + [sum];
          OneMoreHit(View(), q, done, id);
        } else {
          assert Hits(View(), q, done + {id}) == Hits(View(), q, done);
        }
      }
      assert ids - todo == ids;
    }

    /** Find returns the newest matches, newest first, up to the limit. They are
        the matches a scan would find, unless the minute index is used on a trace
        with a long gap between span starts. */
    method Find(q: Query) returns (r: Answer<seq<Summary>>)
      requires Valid()
      ensures r.Answered? <==> q.Valid() && !closed
      ensures r == BadQuery <==>
                || (q.operation != [] && q.service == []) || q.minDuration < 0 || q.maxDuration < 0
                || 0 < q.maxDuration < q.minDuration || q.limit < 0 || q.limit > 1000
                || (q.start.Some? && q.end.Some? && q.end.value < q.start.value)
      ensures q.Valid() && closed ==> r == Closed
      ensures r.Answered? ==> IsTop(r.value, View(), Found(View(), q), q.Limit())
      ensures r.Answered? && (ByMinutes(q) ==> forall id :: id in traces ==> NoLongGap(traces[id])) ==>
                IsTop(r.value, View(), FullScan(View(), q), q.Limit())
      ensures r.Answered? ==> Newest(r.value, View(), Found(View(), q), if q.limit == 0 then 20 else q.limit)
    {
      hide Agrees, Matches, Candidates, NoLongGap, Summaries, Newest;
      if !q.Valid() { return BadQuery; }
      if closed { return Closed; }
      var ids := CandidateIds(q);
      var results := Collect(q, ids);
      ghost var hits := Hits(View(), q, ids);
      assert hits == Found(View(), q);
      NewerIsStrictWeak();
      var sorted := SortFunc(results, Newer);
      SortedMeansListed(View(), hits, sorted);
      if |sorted| > q.Limit() {
        r := Answered(sorted[..q.Limit()]);
      } else {
        r := Answered(sorted);
      }
      TopIsNewest(r.value, View(), hits, q.Limit());
      if ByMinutes(q) ==> forall id :: id in traces ==> NoLongGap(traces[id]) {
        FoundIsScan(View(), q);
      }
    }

    /** Every span of the trace, ordered by start; spans that start together are
        in the order they were first written. */
    method Trace(id: TraceID) returns (r: Answer<seq<Span>>)
      requires Valid()
      ensures closed ==> r == Closed
      ensures !closed && id !in traces ==> r == NotFound
      ensures !closed && id in traces ==>
                && r.Answered?
                && multiset(r.value) == multiset(traces[id].spans)
                && (forall i, j :: 0 <= i < j < |r.value| ==> r.value[i].start <= r.value[j].start)
                && (forall s :: Alike(r.value, StartsBefore, s) == Alike(traces[id].spans, StartsBefore, s))
    {
      if closed { return Closed; }
      if id !in traces { return NotFound; }
      var sorted := SortStableFunc(traces[id].spans, StartsBefore);
      r := Answered(sorted);
    }

    /** Strikes a trace from the store through the keys it recorded. */
    method Remove(id: TraceID)
      requires Valid() && !closed && id in traces
      modifies this, byDuration
      ensures Valid() && !closed && byDuration == old(byDuration)
      ensures View() == Removed(old(View()), {id})
    {
      hide EntryOk, IndexAgrees, BucketsAgree, Purged, ServiceKeys, OperationKeys, DurationKeys, MinuteKeys;
      ghost var before := View();
      RemovedAgrees(before, {id});
      RecordedKeys(before, id);
      var e := traces[id];
      traces := traces - {id};
      byService := Strike(byService, e.services, id, ServiceKeys(before.traces));
      byOperation := Strike(byOperation, e.operations, id, OperationKeys(before.traces));
      StrikeBuckets(id, e.durations, DurationKeys(before.traces));
      byMinute := Strike(byMinute, e.minutes, id, MinuteKeys(before.traces));
    }

    method StrikeBuckets(id: TraceID, keys: set<int>, ghost recorded: map<TraceID, set<int>>)
      requires BucketsAgree(byDuration[..], recorded) && id in recorded && recorded[id] == keys
      modifies byDuration
      ensures byDuration[..] == BucketsPurged(old(byDuration[..]), {id})
    {
      ghost var before := byDuration[..];
      var todo := keys;
      while todo != {}
        invariant todo <= keys
        invariant forall b :: 0 <= b < BUCKETS ==>
          byDuration[b] == if b in todo then before[b] else before[b] - {id}
      {
        ghost var some := Member(todo);
        var b :| b in todo;
        assert b in recorded[id];
        byDuration[b] := byDuration[b] - {id};
        todo := todo - {b};
      }
      assert byDuration[..] == BucketsPurged(before, {id});
    }

    /** Takes out the traces whose end is older than the retention allows, and
        leaves the indexes agreeing about the rest. */
    method EvictExpired(now: int) returns (n: nat)
      requires Valid()
      modifies this, byDuration
      ensures Valid() && closed == old(closed) && byDuration == old(byDuration)
      ensures retention <= 0 || closed ==> n == 0 && View() == old(View())
      ensures retention > 0 && !closed ==>
                && n == |Expired(old(View()), now - retention)|
                && View() == Removed(old(View()), Expired(old(View()), now - retention))
      ensures retention > 0 && !closed ==>
                forall id :: id in old(traces) ==> (id !in traces <==> old(traces)[id].end < now - retention)
    {
      hide Agrees, Removed;
      if retention <= 0 || closed { return 0; }
      var cutoff := now - retention;
      ghost var before := View();
      var expired := set id | id in traces && traces[id].end < cutoff;
      n := |expired|;
      var todo := expired;
      RemoveNothing(before);
      assert expired - todo == {};
      while todo != {}
        invariant todo <= expired && traces.Keys == before.traces.Keys - (expired - todo)
        invariant Valid() && !closed && byDuration == old(byDuration)
        invariant View() == Removed(before, expired - todo)
      {
        var id :| id in todo;
        ghost var done := expired - todo;
        Remove(id);
        todo := todo - {id};
        RemoveOneMore(before, done, id);
        assert expired - todo == done + {id};
      }
      assert expired - todo == expired;
      assert expired == Expired(before, cutoff);
    }

    method Close()
      requires Valid()
      modifies this
      ensures Valid() && closed && byDuration == old(byDuration)
    {
      closed := true;
      traces := map[];
    }
  }

  predicate StartsBefore(a: Span, b: Span) {
    a.start < b.start
  }

  lemma PurgeNothing<K(!new)>(index: Index<K>)
    requires forall key :: key in index ==> index[key] != {}
    ensures Purged(index, {}) == index
  {
    forall key | key in index
      ensures index[key] - {} == index[key]
    {
    }
  }

  lemma RemoveNothing(st: Store)
    requires Agrees(st)
    ensures Removed(st, {}) == st
  {
    PurgeNothing(st.byService);
    PurgeNothing(st.byOperation);
    PurgeNothing(st.byMinute);
    var buckets := BucketsPurged(st.byDuration, {});
    assert buckets == st.byDuration by {
      forall b | 0 <= b < |buckets|
        ensures buckets[b] == st.byDuration[b]
      {
        assert st.byDuration[b] - {} == st.byDuration[b];
      }
    }
    assert st.traces - {} == st.traces;
  }

  lemma PurgeOneMore<K(!new)>(index: Index<K>, ids: set<TraceID>, id: TraceID)
    ensures Purged(Purged(index, ids), {id}) == Purged(index, ids + {id})
  {
    forall key | key in index
      ensures index[key] - ids - {id} == index[key] - (ids + {id})
    {
    }
  }

  lemma RemoveOneMore(st: Store, ids: set<TraceID>, id: TraceID)
    ensures Removed(Removed(st, ids), {id}) == Removed(st, ids + {id})
    ensures Removed(st, ids + {id}).traces.Keys == st.traces.Keys - (ids + {id})
  {
    PurgeOneMore(st.byService, ids, id);
    PurgeOneMore(st.byOperation, ids, id);
    PurgeOneMore(st.byMinute, ids, id);
    var twice := BucketsPurged(BucketsPurged(st.byDuration, ids), {id});
    assert twice == BucketsPurged(st.byDuration, ids + {id}) by {
      forall b | 0 <= b < |twice|
        ensures twice[b] == st.byDuration[b] - (ids + {id})
      {
        assert st.byDuration[b] - ids - {id} == st.byDuration[b] - (ids + {id});
      }
    }
    assert st.traces - ids - {id} == st.traces - (ids + {id});
  }

  /** The indexes agree with the keys each trace recorded. */
  lemma RecordedKeys(st: Store, id: TraceID)
    requires Agrees(st) && id in st.traces
    ensures var e := st.traces[id];
            && IndexAgrees(st.byService, ServiceKeys(st.traces))
            && id in ServiceKeys(st.traces) && ServiceKeys(st.traces)[id] == e.services
            && IndexAgrees(st.byOperation, OperationKeys(st.traces))
            && id in OperationKeys(st.traces) && OperationKeys(st.traces)[id] == e.operations
            && BucketsAgree(st.byDuration, DurationKeys(st.traces))
            && id in DurationKeys(st.traces) && DurationKeys(st.traces)[id] == e.durations
            && IndexAgrees(st.byMinute, MinuteKeys(st.traces))
            && id in MinuteKeys(st.traces) && MinuteKeys(st.traces)[id] == e.minutes
  {
    hide EntryOk, IndexAgrees, BucketsAgree;
  }

  /** Striking a trace from just the buckets it recorded strikes it from all. */
  method Strike<K(!new,==)>(index: Index<K>, keys: set<K>, id: TraceID, ghost recorded: map<TraceID, set<K>>)
    returns (r: Index<K>)
    requires IndexAgrees(index, recorded) && id in recorded && recorded[id] == keys
    ensures r == Purged(index, {id})
  {
    r := index;
    var todo := keys;
    UnrecordedIsUnindexed(index, keys, id, recorded);
    while todo != {}
      invariant todo <= keys
      invariant r == PartlyPurged(index, todo, id)
    {
      var key :| key in todo;
      r := RemoveFrom(r, key, id);
      todo := todo - {key};
    }
  }

  ghost function PartlyPurged<K>(index: Index<K>, todo: set<K>, id: TraceID): Index<K> {
    map key | key in index && (key in todo || index[key] - {id} != {}) ::
      if key in todo then index[key] else index[key] - {id}
  }

  lemma UnrecordedIsUnindexed<K(!new)>(index: Index<K>, keys: set<K>, id: TraceID, recorded: map<TraceID, set<K>>)
    requires IndexAgrees(index, recorded) && id in recorded && recorded[id] == keys
    ensures PartlyPurged(index, keys, id) == index
  {
    forall key | key in index && key !in keys
      ensures index[key] - {id} == index[key]
    {
      assert id !in index[key];
    }
  }

  /** A sorted run of distinct summaries is the ordered list of them. */
  lemma SortedMeansListed(st: Store, hits: set<TraceID>, sorted: seq<Summary>)
    requires Agrees(st)
    requires multiset(sorted) == multiset(Summaries(st, hits)) && SortedBy(sorted, Newer)
    ensures Lists(sorted, Summaries(st, hits), Newer)
  {
    var sums := Summaries(st, hits);
    forall x
      ensures x in sorted <==> x in sums
    {
      assert x in sorted <==> x in multiset(sorted);
    }
    forall i, j | 0 <= i < j < |sorted|
      ensures Newer(sorted[i], sorted[j])
    {
      assert sorted[i] in sums && sorted[j] in sums;
      assert sorted[i] != sorted[j] by {
        if sorted[i] == sorted[j] {
          OccursTwice(sorted, i, j);
          assert false;
        }
      }
      NewerConnects(sorted[i], sorted[j]);
    }
  }
}
