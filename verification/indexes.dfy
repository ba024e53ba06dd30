/** The store as values: the traces, four secondary indexes over them, and the
    steps that keep the two in agreement. Class Memory, in module Memory,
    runs these steps in place. */
module Indexes {
  import opened Trace

  const MINUTE_INDEX_LIMIT := 24 * 60
  const BUCKETS := 65
  const SECOND := 1_000_000_000

  datatype OpKey = OpKey(service: Text, name: Text)

  type Index<!K> = map<K, set<TraceID>>

  /** One stored trace, with every index key it was ever filed under. */
  datatype Entry = Entry(
    spans: seq<Span>,
    bySpan: map<SpanID, nat>,
    start: Int64,
    end: Int64,
    services: set<Text>,
    operations: set<OpKey>,
    durations: set<int>,
    minutes: set<int>)

  datatype Store = Store(
    traces: map<TraceID, Entry>,
    byService: Index<Text>,
    byOperation: Index<OpKey>,
    byDuration: seq<set<TraceID>>,
    byMinute: Index<int>)

  // --------------------------------------------------------------- the keys

  /** bits.Len64. */
  function BitLen(n: nat): nat {
    if n == 0 then 0 else 1 + BitLen(n / 2)
  }

  function DurationBucket(d: int): nat {
    if d <= 0 then 0 else BitLen(d)
  }

  lemma {:induction false} BitLenMonotone(m: nat, n: nat)
    requires m <= n
    ensures BitLen(m) <= BitLen(n)
  {
    if m > 0 {
      BitLenMonotone(m / 2, n / 2);
    }
  }

  function Pow2(k: nat): nat {
    if k == 0 then 1 else 2 * Pow2(k - 1)
  }

  lemma {:induction false} BitLenBound(n: nat, k: nat)
    requires n < Pow2(k)
    ensures BitLen(n) <= k
  {
    if n > 0 {
      BitLenBound(n / 2, k - 1);
    }
  }

  lemma {:induction false} BitLenTight(n: nat)
    requires n > 0
    ensures BitLen(n) > 0 && Pow2(BitLen(n) - 1) <= n < Pow2(BitLen(n))
  {
    if n > 1 {
      BitLenTight(n / 2);
    }
  }

  /** A duration is filed under the power of two it falls below first. */
  lemma DurationBucketInTimes(d: int)
    ensures d <= 0 ==> DurationBucket(d) == 0
    ensures d > 0 ==> DurationBucket(d) > 0 && Pow2(DurationBucket(d) - 1) <= d < Pow2(DurationBucket(d))
  {
    if d > 0 {
      BitLenTight(d);
    }
  }

  lemma DurationBucketInRange(s: Span)
    ensures DurationBucket(s.Duration()) < BUCKETS
  {
    assert Pow2(22) == 0x40_0000 && Pow2(43) == 0x800_0000_0000 && Pow2(64) == UINT64 by {
      assert Pow2(8) == 256 && Pow2(15) == 0x8000;
      assert Pow2(29) == 0x2000_0000 && Pow2(36) == 0x10_0000_0000;
      assert Pow2(50) == 0x4_0000_0000_0000 && Pow2(57) == 0x200_0000_0000_0000;
    }
    if s.Duration() > 0 {
      BitLenBound(s.Duration(), 64);
    }
  }

  /** Time.Unix() / 60: seconds round down, minutes round toward zero. */
  function Minute(t: int): int {
    var seconds := t / SECOND;
    if seconds >= 0 then seconds / 60 else -((-seconds) / 60)
  }

  /** The minute of a time, in nanoseconds. Minute 0 is nearly two minutes long. */
  lemma MinuteInTimes(t: int, m: int)
    ensures Minute(t) == m <==>
              if t >= 0 then m * 60000000000 <= t < (m + 1) * 60000000000
              else (m - 1) * 60000000000 + 1000000000 <= t < m * 60000000000 + 1000000000
  {
  }

  lemma MinuteMonotone(t: int, u: int)
    requires t <= u
    ensures Minute(t) <= Minute(u)
  {
  }

  /** Going back at most a day goes back at most 1440 minutes. */
  lemma MinuteOfYesterday(t: int, u: int)
    requires u - MINUTE_INDEX_LIMIT * 60 * SECOND <= t
    ensures Minute(u) - MINUTE_INDEX_LIMIT <= Minute(t)
  {
    assert t / SECOND >= u / SECOND - MINUTE_INDEX_LIMIT * 60;
  }

  function OpOf(s: Span): OpKey {
    OpKey(s.service, s.name)
  }

  // -------------------------------------------------------------- the steps

  function AddTo<K>(index: Index<K>, key: K, id: TraceID): Index<K> {
    index[key := (if key in index then index[key] else {}) + {id}]
  }

  function RemoveFrom<K>(index: Index<K>, key: K, id: TraceID): Index<K> {
    if key !in index || index[key] - {id} == {} then index - {key}
    else index[key := index[key] - {id}]
  }

  function NewEntry(s: Span): Entry {
    Entry([], map[], s.start, s.end, {}, {}, {}, {})
  }

  /** An entry with one more span: a copy of a span already held replaces it,
      the bounds only widen, and the keys only grow. */
  function Grown(e: Entry, s: Span): Entry
    requires s.spanID in e.bySpan ==> e.bySpan[s.spanID] < |e.spans|
  {
    var dup := s.spanID in e.bySpan;
    Entry(
      if dup then e.spans[e.bySpan[s.spanID] := s] else e.spans + [s],
      if dup then e.bySpan else e.bySpan[s.spanID := |e.spans|],
      if s.start < e.start then s.start else e.start,
      if s.end > e.end then s.end else e.end,
      e.services + {s.service},
      e.operations + {OpOf(s)},
      e.durations + {DurationBucket(s.Duration())},
      e.minutes + {Minute(s.start)})
  }

  function Inserted(st: Store, s: Span): (r: Store)
    requires Agrees(st)
  {
    DurationBucketInRange(s);
    var id := s.traceID;
    var b := DurationBucket(s.Duration());
    assert id in st.traces ==> EntryOk(id, st.traces[id]);
    Store(
      st.traces[id := Grown(if id in st.traces then st.traces[id] else NewEntry(s), s)],
      AddTo(st.byService, s.service, id),
      AddTo(st.byOperation, OpOf(s), id),
      st.byDuration[b := st.byDuration[b] + {id}],
      AddTo(st.byMinute, Minute(s.start), id))
  }

  /** The index with some traces struck from every bucket. */
  function Purged<K>(index: Index<K>, ids: set<TraceID>): Index<K> {
    map key | key in index && index[key] - ids != {} :: index[key] - ids
  }

  function BucketsPurged(buckets: seq<set<TraceID>>, ids: set<TraceID>): (r: seq<set<TraceID>>)
    ensures |r| == |buckets| && forall b :: 0 <= b < |buckets| ==> r[b] == buckets[b] - ids
  {
    seq(|buckets|, b requires 0 <= b < |buckets| => buckets[b] - ids)
  }

  function Removed(st: Store, ids: set<TraceID>): Store {
    Store(
      st.traces - ids,
      Purged(st.byService, ids),
      Purged(st.byOperation, ids),
      BucketsPurged(st.byDuration, ids),
      Purged(st.byMinute, ids))
  }

  // ---------------------------------------------------------- the agreement

  /** What an entry keeps true of itself. */
  ghost predicate EntryOk(id: TraceID, e: Entry) {
    && |e.spans| > 0
    && e.start <= e.end
    && Minute(e.start) in e.minutes
    && (forall sid :: sid in e.bySpan ==> e.bySpan[sid] < |e.spans| && e.spans[e.bySpan[sid]].spanID == sid)
    && (forall i :: 0 <= i < |e.spans| ==> SpanFiled(id, e, i))
  }

  /** Span i of an entry is found by its identifier, inside the entry's bounds,
      and under every key it has. */
  ghost predicate SpanFiled(id: TraceID, e: Entry, i: nat)
    requires i < |e.spans|
  {
    var s := e.spans[i];
    && s.traceID == id
    && s.spanID in e.bySpan && e.bySpan[s.spanID] == i
    && e.start <= s.start && s.end <= e.end
    && s.service in e.services
    && OpOf(s) in e.operations
    && DurationBucket(s.Duration()) in e.durations
    && Minute(s.start) in e.minutes
  }

  /** An index holds a trace under a key exactly when the trace records that key,
      and no bucket of it is empty. */
  ghost predicate IndexAgrees<K(!new)>(index: Index<K>, keys: map<TraceID, set<K>>) {
    && (forall key :: key in index ==> index[key] != {})
    && (forall key, id :: key in index && id in index[key] ==> id in keys && key in keys[id])
    && (forall key, id :: id in keys && key in keys[id] ==> key in index && id in index[key])
  }

  ghost predicate BucketsAgree(buckets: seq<set<TraceID>>, keys: map<TraceID, set<int>>) {
    && |buckets| == BUCKETS
    && (forall b, id :: 0 <= b < BUCKETS && id in buckets[b] ==> id in keys && b in keys[id])
    && (forall id, b :: id in keys && b in keys[id] ==> 0 <= b < BUCKETS)
    && (forall id, b :: id in keys && b in keys[id] ==> id in buckets[b])
  }

  function ServiceKeys(traces: map<TraceID, Entry>): map<TraceID, set<Text>> {
    map id | id in traces :: traces[id].services
  }

  function OperationKeys(traces: map<TraceID, Entry>): map<TraceID, set<OpKey>> {
    map id | id in traces :: traces[id].operations
  }

  function DurationKeys(traces: map<TraceID, Entry>): map<TraceID, set<int>> {
    map id | id in traces :: traces[id].durations
  }

  function MinuteKeys(traces: map<TraceID, Entry>): map<TraceID, set<int>> {
    map id | id in traces :: traces[id].minutes
  }

  ghost predicate Agrees(st: Store) {
    && (forall id :: id in st.traces ==> EntryOk(id, st.traces[id]))
    && IndexAgrees(st.byService, ServiceKeys(st.traces))
    && IndexAgrees(st.byOperation, OperationKeys(st.traces))
    && BucketsAgree(st.byDuration, DurationKeys(st.traces))
    && IndexAgrees(st.byMinute, MinuteKeys(st.traces))
  }

  ghost function Empty(): (st: Store)
    ensures Agrees(st)
  {
    Store(map[], map[], map[], seq(BUCKETS, _ => {}), map[])
  }

  lemma GrownOk(id: TraceID, e: Entry, s: Span)
    requires s.traceID == id && s.start <= s.end
    requires EntryOk(id, e) || e == NewEntry(s)
    ensures EntryOk(id, Grown(e, s))
  {
    hide DurationBucket, Minute;
    var g := Grown(e, s);
    forall i | 0 <= i < |g.spans|
      ensures SpanFiled(id, g, i)
    {
      if g.spans[i] != s {
        assert SpanFiled(id, e, i);
      }
    }
  }

  /** An entry of an agreeing store can take one more span. */
  lemma CanGrow(st: Store, s: Span)
    requires Agrees(st) && s.traceID in st.traces
    ensures var e := st.traces[s.traceID];
            && e.spans != []
            && (s.spanID in e.bySpan ==> e.bySpan[s.spanID] < |e.spans|)
  {
    assert EntryOk(s.traceID, st.traces[s.traceID]);
  }

  lemma AddToAgrees<K(!new)>(index: Index<K>, keys: map<TraceID, set<K>>, key: K, id: TraceID)
    requires IndexAgrees(index, keys)
    ensures IndexAgrees(AddTo(index, key, id), keys[id := (if id in keys then keys[id] else {}) + {key}])
  {
  }

  lemma PurgedAgrees<K(!new)>(index: Index<K>, keys: map<TraceID, set<K>>, ids: set<TraceID>)
    requires IndexAgrees(index, keys)
    ensures IndexAgrees(Purged(index, ids), keys - ids)
  {
    forall key, id | id in keys - ids && key in (keys - ids)[id]
      ensures key in Purged(index, ids) && id in Purged(index, ids)[key]
    {
      assert id in index[key] - ids;
    }
  }

  lemma BucketAddAgrees(buckets: seq<set<TraceID>>, keys: map<TraceID, set<int>>, b: nat, id: TraceID)
    requires BucketsAgree(buckets, keys) && b < BUCKETS
    ensures BucketsAgree(buckets[b := buckets[b] + {id}], keys[id := (if id in keys then keys[id] else {}) + {b}])
  {
    var more := buckets[b := buckets[b] + {id}];
    var keys' := keys[id := (if id in keys then keys[id] else {}) + {b}];
    forall c, i | i in keys' && c in keys'[i]
      ensures 0 <= c < BUCKETS && i in more[c]
    {
      if !(i == id && c == b) {
        assert i in keys && c in keys[i];
      }
    }
  }

  lemma BucketsPurgedAgree(buckets: seq<set<TraceID>>, keys: map<TraceID, set<int>>, ids: set<TraceID>)
    requires BucketsAgree(buckets, keys)
    ensures BucketsAgree(BucketsPurged(buckets, ids), keys - ids)
  {
    forall c, i | i in keys - ids && c in (keys - ids)[i]
      ensures 0 <= c < BUCKETS && i in BucketsPurged(buckets, ids)[c]
    {
      assert i in keys && c in keys[i];
    }
  }

  lemma KeysOfUpdate(traces: map<TraceID, Entry>, id: TraceID, e: Entry)
    ensures ServiceKeys(traces[id := e]) == ServiceKeys(traces)[id := e.services]
    ensures OperationKeys(traces[id := e]) == OperationKeys(traces)[id := e.operations]
    ensures DurationKeys(traces[id := e]) == DurationKeys(traces)[id := e.durations]
    ensures MinuteKeys(traces[id := e]) == MinuteKeys(traces)[id := e.minutes]
  {
  }

  /** Every write keeps the indexes in agreement with the traces. */
  lemma InsertedAgrees(st: Store, s: Span)
    requires Agrees(st) && s.start <= s.end
    ensures Agrees(Inserted(st, s))
  {
    hide DurationBucket, Minute, EntryOk, AddTo, IndexAgrees, BucketsAgree;
    var id := s.traceID;
    var e := if id in st.traces then st.traces[id] else NewEntry(s);
    GrownOk(id, e, s);
    KeysOfUpdate(st.traces, id, Inserted(st, s).traces[id]);
    AddToAgrees(st.byService, ServiceKeys(st.traces), s.service, id);
    AddToAgrees(st.byOperation, OperationKeys(st.traces), OpOf(s), id);
    DurationBucketInRange(s);
    BucketAddAgrees(st.byDuration, DurationKeys(st.traces), DurationBucket(s.Duration()), id);
    AddToAgrees(st.byMinute, MinuteKeys(st.traces), Minute(s.start), id);
  }

  /** So does every eviction. */
  lemma RemovedAgrees(st: Store, ids: set<TraceID>)
    requires Agrees(st)
    ensures Agrees(Removed(st, ids))
  {
    hide EntryOk, Purged, IndexAgrees, BucketsAgree;
    var r := Removed(st, ids);
    PurgedAgrees(st.byService, ServiceKeys(st.traces), ids);
    PurgedAgrees(st.byOperation, OperationKeys(st.traces), ids);
    BucketsPurgedAgree(st.byDuration, DurationKeys(st.traces), ids);
    PurgedAgrees(st.byMinute, MinuteKeys(st.traces), ids);
    assert ServiceKeys(r.traces) == ServiceKeys(st.traces) - ids;
    assert OperationKeys(r.traces) == OperationKeys(st.traces) - ids;
    assert DurationKeys(r.traces) == DurationKeys(st.traces) - ids;
    assert MinuteKeys(r.traces) == MinuteKeys(st.traces) - ids;
  }
}
