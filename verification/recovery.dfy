/** What a directory of segment files is worth after a crash.

    A file has bytes a reader sees, and a part of them known to be durable. A
    crash keeps at least the durable part of each file and at most all of it.
    This module says what reopening makes of any such directory, and which
    directories lose nothing that was acknowledged. */
module Recovery {
  import opened Trace
  import opened Codec
  import opened Segment
  import Sorting

  datatype File = File(bytes: Bytes, synced: nat)

  /** Segment files by the hour in their name. */
  type Files = map<int, File>

  /** The spans of each segment. */
  type Segments = map<int, seq<Span>>

  ghost function Newest(hours: set<int>): (h: int)
    requires hours != {}
    ensures h in hours && forall g :: g in hours ==> g <= h
  {
    assert exists h :: h in hours && forall g :: g in hours ==> g <= h by {
      var newest := NewestExists(hours);
    }
    var h :| h in hours && forall g :: g in hours ==> g <= h;
    h
  }

  lemma {:induction false} NewestExists(hours: set<int>) returns (h: int)
    requires hours != {}
    ensures h in hours && forall g :: g in hours ==> g <= h
    decreases |hours|
  {
    var x := Sorting.Member(hours);
    var rest := hours - {x};
    if rest == {} {
      h := x;
    } else {
      var y := NewestExists(rest);
      h := if x > y then x else y;
    }
    forall g | g in hours
      ensures g <= h
    {
      assert g == x || g in rest;
    }
  }

  /** All spans, the oldest segment's first. */
  ghost function Flat(segments: Segments): seq<Span>
    decreases |segments|
  {
    if segments == map[] then []
    else
      var h := Newest(segments.Keys);
      assert (segments - {h}).Keys == segments.Keys - {h};
      Flat(segments - {h}) + segments[h]
  }

  /** Changing the newest segment changes the end of the list. */
  lemma FlatAtNewest(segments: Segments, h: int, spans: seq<Span>)
    requires forall g :: g in segments ==> g <= h
    ensures Flat(segments[h := spans]) == Flat(segments - {h}) + spans
  {
    var more := segments[h := spans];
    assert h in more.Keys;
    assert Newest(more.Keys) == h;
    assert more - {h} == segments - {h};
  }

  lemma FlatSplits(segments: Segments, h: int)
    requires h in segments && forall g :: g in segments ==> g <= h
    ensures Flat(segments) == Flat(segments - {h}) + segments[h]
  {
    assert Newest(segments.Keys) == h;
  }

  lemma GrowNewest(segments: Segments, h: int, more: seq<Span>)
    requires h in segments && forall g :: g in segments ==> g <= h
    ensures Flat(segments[h := segments[h] + more]) == Flat(segments) + more
  {
    hide Flat;
    FlatSplits(segments, h);
    FlatAtNewest(segments, h, segments[h] + more);
    assert Flat(segments - {h}) + (segments[h] + more) == Flat(segments - {h}) + segments[h] + more;
  }

  // ----------------------------------------------------------- what opens

  /** A batch Disk.Write takes as far as the file. */
  predicate StoreReady(spans: seq<Span>) {
    AllValid(spans) && AllEncodable(spans)
  }

  /** The spans reopening finds in each segment. */
  function Recovered(crc: Checksum, files: Files): Segments {
    map h | h in files :: Scan(crc, files[h].bytes).spans
  }

  /** OpenDisk accepts the directory: every sealed segment is intact, and every
      span found is one the store takes. */
  ghost predicate Openable(crc: Checksum, files: Files) {
    && (forall h :: h in files && h != Newest(files.Keys) ==> Scan(crc, files[h].bytes).intact)
    && (forall h :: h in files ==> AllValid(Scan(crc, files[h].bytes).spans))
  }

  /** A crash may lose any part of a file that was not yet durable. */
  ghost predicate Crashed(before: Files, after: Files) {
    && after.Keys == before.Keys
    && forall h :: h in before ==> CrashedFile(before[h], after[h])
  }

  ghost predicate CrashedFile(before: File, after: File) {
    && after.bytes <= before.bytes
    && (before.synced <= |after.bytes| || after.bytes == before.bytes)
    && after.synced == |after.bytes|
  }

  /** Whatever a crash does to these files, reopening succeeds and finds every
      span of the log in order, then at most some whole records of one batch. */
  ghost predicate Survives(crc: Checksum, files: Files, log: seq<Span>, batch: seq<Span>) {
    forall after :: Crashed(files, after) ==>
      && Openable(crc, after)
      && exists j :: 0 <= j <= |batch| && Flat(Recovered(crc, after)) == log + batch[..j]
  }

  // ------------------------------------------------------ what is preserved

  /** What was acknowledged of a segment: its bytes, and the spans they read as. */
  datatype Acked = Acked(bytes: Bytes, spans: seq<Span>)

  type AckedSegments = map<int, Acked>

  function Spans(acked: AckedSegments): Segments {
    map h | h in acked :: acked[h].spans
  }

  ghost predicate AckedOk(crc: Checksum, a: Acked) {
    Scan(crc, a.bytes) == Scanned(a.spans, |a.bytes|, true) && AllValid(a.spans)
  }

  /** A segment that holds its acknowledged bytes durably, and after them at
      most the beginning of one batch. */
  ghost predicate Holds(crc: Checksum, f: File, good: Bytes, batch: seq<Span>) {
    && good <= f.bytes
    && f.bytes[|good|..] <= Records(crc, batch)
    && |good| <= f.synced <= |f.bytes|
  }

  /** Every segment holds exactly its acknowledged bytes, and only the newest
      may go on with the beginning of one batch. */
  ghost predicate Shape(crc: Checksum, files: Files, acked: AckedSegments, batch: seq<Span>) {
    && files.Keys == acked.Keys
    && StoreReady(batch)
    && (forall h :: h in acked ==> AckedOk(crc, acked[h]))
    && (forall h :: h in files ==> Holds(crc, files[h], acked[h].bytes, batch))
    && (forall h :: h in files && h != Newest(files.Keys) ==> files[h].bytes == acked[h].bytes)
  }

  lemma PrefixOfConcat(a: Bytes, b: Bytes, p: Bytes)
    requires p <= a + b && |p| >= |a|
    ensures p == a + b[..|p| - |a|]
  {
    assert p == (a + b)[..|p|];
  }

  /** Acknowledged bytes, then a batch cut at byte k: the scan finds the
      acknowledged spans and the whole records of the batch. */
  lemma TornBatch(crc: Checksum, a: Acked, batch: seq<Span>, k: nat)
    requires AckedOk(crc, a) && StoreReady(batch) && k <= |Records(crc, batch)|
    ensures var spans := a.spans + batch[..Whole(crc, batch, k)];
            Scan(crc, a.bytes + Records(crc, batch)[..k]).spans == spans && AllValid(spans)
  {
    hide Encodable, Records, Scan, Whole;
    CutRecords(crc, batch, k);
    ScanThrough(crc, a.bytes, Records(crc, batch)[..k]);
  }

  /** One segment after a crash: its acknowledged spans, then whole records of
      the batch. */
  lemma CrashedSegment(crc: Checksum, before: File, after: File, a: Acked, batch: seq<Span>) returns (j: nat)
    requires Holds(crc, before, a.bytes, batch) && CrashedFile(before, after)
    requires AckedOk(crc, a) && StoreReady(batch)
    ensures j <= |batch|
    ensures Scan(crc, after.bytes).spans == a.spans + batch[..j] && AllValid(a.spans + batch[..j])
  {
    hide AllValid, AllEncodable, Records, Scan, Whole;
    var tail := before.bytes[|a.bytes|..];
    assert before.bytes == a.bytes + tail;
    PrefixOfConcat(a.bytes, tail, after.bytes);
    var k := |after.bytes| - |a.bytes|;
    assert tail[..k] == Records(crc, batch)[..k];
    TornBatch(crc, a, batch, k);
    j := Whole(crc, batch, k);
  }

  /** Any crash of a directory in shape reopens to the acknowledged segments,
      with whole records of the batch after the newest. */
  lemma CrashedShape(crc: Checksum, files: Files, acked: AckedSegments, batch: seq<Span>, after: Files)
    returns (j: nat)
    requires Shape(crc, files, acked, batch) && Crashed(files, after) && files != map[]
    ensures j <= |batch|
    ensures var h := Newest(files.Keys);
            Recovered(crc, after) == Spans(acked)[h := acked[h].spans + batch[..j]]
    ensures Openable(crc, after)
  {
    hide Records, Scan, AllValid, StoreReady;
    var newest := Newest(files.Keys);
    j := CrashedSegment(crc, files[newest], after[newest], acked[newest], batch);
    forall h | h in files && h != newest
      ensures Scan(crc, after[h].bytes).intact && Scan(crc, after[h].bytes).spans == acked[h].spans
    {
      assert after[h].bytes == acked[h].bytes;
    }
  }

  lemma NothingToRecover(crc: Checksum)
    ensures Openable(crc, map[]) && Flat(Recovered(crc, map[])) == [] && Flat(Spans(map[])) == []
  {
  }

  lemma CrashedLog(crc: Checksum, files: Files, acked: AckedSegments, batch: seq<Span>, after: Files)
    returns (j: nat)
    requires Shape(crc, files, acked, batch) && Crashed(files, after)
    ensures j <= |batch|
    ensures Openable(crc, after)
    ensures Flat(Recovered(crc, after)) == Flat(Spans(acked)) + batch[..j]
  {
    hide Flat, Recovered, Openable, Holds, StoreReady, AckedOk;
    if files == map[] {
      assert after == map[] && acked == map[];
      NothingToRecover(crc);
      j := 0;
    } else {
      j := CrashedShape(crc, files, acked, batch, after);
      GrowNewest(Spans(acked), Newest(files.Keys), batch[..j]);
    }
  }

  /** A directory in shape loses nothing: every crash of it reopens with the
      whole log, then at most whole records of the one batch. */
  lemma ShapeSurvives(crc: Checksum, files: Files, acked: AckedSegments, batch: seq<Span>)
    requires Shape(crc, files, acked, batch)
    ensures Survives(crc, files, Flat(Spans(acked)), batch)
  {
    hide Openable, Flat, Recovered, Shape;
    forall after | Crashed(files, after)
      ensures Openable(crc, after)
      ensures exists j :: 0 <= j <= |batch| && Flat(Recovered(crc, after)) == Flat(Spans(acked)) + batch[..j]
    {
      var j := CrashedLog(crc, files, acked, batch, after);
    }
  }

  /** What survives with nothing after the log survives with anything. */
  lemma SurvivesWithMore(crc: Checksum, files: Files, log: seq<Span>, batch: seq<Span>)
    requires Survives(crc, files, log, [])
    ensures Survives(crc, files, log, batch)
  {
    hide Openable, Flat, Recovered;
    forall after | Crashed(files, after)
      ensures exists j :: 0 <= j <= |batch| && Flat(Recovered(crc, after)) == log + batch[..j]
    {
      assert Flat(Recovered(crc, after)) == log + batch[..0];
    }
  }

  // ------------------------------------------------ how the shape is kept

  lemma NewestIs(hours: set<int>, h: int)
    requires h in hours && forall g :: g in hours ==> g <= h
    ensures Newest(hours) == h
  {
  }

  /** The newest file replaced by one that still holds its acknowledged bytes. */
  lemma ShapeNewestFile(crc: Checksum, files: Files, acked: AckedSegments, was: seq<Span>, h: int, f: File, batch: seq<Span>)
    requires Shape(crc, files, acked, was) && h in files && Newest(files.Keys) == h
    requires StoreReady(batch) && Holds(crc, f, acked[h].bytes, batch)
    ensures Shape(crc, files[h := f], acked, batch)
  {
    hide AckedOk, StoreReady, Records;
    assert files[h := f].Keys == files.Keys;
    forall g | g in files && g != h
      ensures Holds(crc, files[g], acked[g].bytes, batch)
    {
      assert files[g].bytes[|acked[g].bytes|..] == [];
    }
  }

  /** With nothing after the acknowledged bytes, the files are just those. */
  lemma ExactFiles(crc: Checksum, files: Files, acked: AckedSegments)
    requires Shape(crc, files, acked, [])
    ensures forall h :: h in files ==> files[h] == File(acked[h].bytes, |acked[h].bytes|)
  {
    hide AckedOk, StoreReady;
    EmptyRecords(crc);
    forall h | h in files
      ensures files[h] == File(acked[h].bytes, |acked[h].bytes|)
    {
      assert files[h].bytes == acked[h].bytes + files[h].bytes[|acked[h].bytes|..];
    }
  }

  /** Files that are just their acknowledged bytes are in shape. */
  lemma ShapeOfExact(crc: Checksum, files: Files, acked: AckedSegments)
    requires files.Keys == acked.Keys
    requires forall h :: h in acked ==> AckedOk(crc, acked[h])
    requires forall h :: h in files ==> files[h] == File(acked[h].bytes, |acked[h].bytes|)
    ensures Shape(crc, files, acked, [])
  {
    hide AckedOk, StoreReady, Records;
    EmptyRecords(crc);
    forall h | h in files
      ensures Holds(crc, files[h], acked[h].bytes, [])
    {
      assert files[h].bytes[|acked[h].bytes|..] == [];
    }
  }

  /** A new, newest, empty segment. */
  lemma ShapeNewSegment(crc: Checksum, files: Files, acked: AckedSegments, h: int)
    requires Shape(crc, files, acked, []) && forall g :: g in files ==> g < h
    ensures Shape(crc, files[h := File([], 0)], acked[h := Acked([], [])], [])
    ensures Flat(Spans(acked[h := Acked([], [])])) == Flat(Spans(acked))
  {
    hide AckedOk, StoreReady, Holds, Flat, Spans;
    NothingAcked(crc);
    ExactFiles(crc, files, acked);
    ShapeOfExact(crc, files[h := File([], 0)], acked[h := Acked([], [])]);
    FlatWithEmpty(acked, h);
  }

  lemma NothingAcked(crc: Checksum)
    ensures AckedOk(crc, Acked([], []))
  {
  }

  lemma FlatWithEmpty(acked: AckedSegments, h: int)
    requires forall g :: g in acked ==> g < h
    ensures Flat(Spans(acked[h := Acked([], [])])) == Flat(Spans(acked))
  {
    hide Flat;
    FlatAtNewest(Spans(acked), h, []);
    assert Spans(acked[h := Acked([], [])]) == Spans(acked)[h := []];
    assert Spans(acked) - {h} == Spans(acked);
  }

  lemma CommittedOk(crc: Checksum, a: Acked, batch: seq<Span>)
    requires AckedOk(crc, a) && StoreReady(batch)
    ensures AckedOk(crc, Acked(a.bytes + Records(crc, batch), a.spans + batch))
  {
    hide Scan, Records, Encodable;
    ScanThrough(crc, a.bytes, Records(crc, batch));
    ScanOfRecords(crc, batch);
  }

  /** A whole batch, durable after the newest segment, is acknowledged. */
  lemma ShapeCommit(crc: Checksum, files: Files, acked: AckedSegments, h: int, batch: seq<Span>)
    requires Shape(crc, files, acked, batch) && h in files && Newest(files.Keys) == h
    requires files[h] == File(acked[h].bytes + Records(crc, batch), |acked[h].bytes + Records(crc, batch)|)
    ensures var a := Acked(files[h].bytes, acked[h].spans + batch);
            && Shape(crc, files, acked[h := a], [])
            && Flat(Spans(acked[h := a])) == Flat(Spans(acked)) + batch
  {
    hide AckedOk, StoreReady, Records, Flat;
    var a := Acked(files[h].bytes, acked[h].spans + batch);
    CommittedOk(crc, acked[h], batch);
    forall g | g in files && g != h
      ensures files[g] == File(acked[g].bytes, |acked[g].bytes|)
    {
    }
    ShapeOfExact(crc, files, acked[h := a]);
    GrowNewest(Spans(acked), h, batch);
    assert Spans(acked[h := a]) == Spans(acked)[h := acked[h].spans + batch];
  }

  lemma EmptyRecords(crc: Checksum)
    ensures Records(crc, []) == [] && StoreReady([])
  {
  }

  function Kept(acked: AckedSegments, hours: set<int>): AckedSegments {
    map h | h in acked && h in hours :: acked[h]
  }

  /** A segment deleted: the rest keep their shape, and if it was the newest,
      nothing is left after the new newest. */
  lemma ShapeRemove(crc: Checksum, files: Files, acked: AckedSegments, batch: seq<Span>, h: int)
    requires Shape(crc, files, acked, batch) && h in files
    ensures Shape(crc, files - {h}, acked - {h}, if h == Newest(files.Keys) then [] else batch)
  {
    hide AckedOk, Records, StoreReady;
    EmptyRecords(crc);
    var rest := files - {h};
    assert rest.Keys == files.Keys - {h};
    if h != Newest(files.Keys) {
      NewestIs(rest.Keys, Newest(files.Keys));
    } else {
      forall g | g in rest
        ensures Holds(crc, rest[g], acked[g].bytes, [])
      {
        assert files[g].bytes[|acked[g].bytes|..] == [];
      }
    }
  }

  lemma AckedInside(crc: Checksum, files: Files, acked: AckedSegments, batch: seq<Span>, h: int)
    requires Shape(crc, files, acked, batch) && h in files
    ensures h in acked && |acked[h].bytes| <= files[h].synced <= |files[h].bytes|
  {
  }

  /** The newest file cut somewhere after its acknowledged bytes, or right after
      them. */
  lemma ShapeTruncated(crc: Checksum, files: Files, acked: AckedSegments, was: seq<Span>, h: int, f: File, batch: seq<Span>)
    requires Shape(crc, files, acked, was) && h in files && Newest(files.Keys) == h
    requires |acked[h].bytes| <= f.synced <= |f.bytes| && f.bytes <= files[h].bytes
    requires batch == was || (batch == [] && |f.bytes| == |acked[h].bytes|)
    ensures Shape(crc, files[h := f], acked, batch)
  {
    hide AckedOk, Records;
    EmptyRecords(crc);
    var good := acked[h].bytes;
    assert f.bytes[|good|..] <= files[h].bytes[|good|..];
    ShapeNewestFile(crc, files, acked, was, h, f, batch);
  }

  /** Part of a batch written after the newest segment. */
  lemma ShapeWritten(crc: Checksum, files: Files, acked: AckedSegments, h: int, batch: seq<Span>, n: nat)
    requires Shape(crc, files, acked, []) && h in files && Newest(files.Keys) == h
    requires StoreReady(batch) && n <= |Records(crc, batch)|
    ensures Shape(crc, files[h := File(files[h].bytes + Records(crc, batch)[..n], files[h].synced)], acked, batch)
  {
    hide AckedOk, Records, StoreReady;
    ExactFiles(crc, files, acked);
    var f := File(files[h].bytes + Records(crc, batch)[..n], files[h].synced);
    assert f.bytes[|acked[h].bytes|..] == Records(crc, batch)[..n];
    ShapeNewestFile(crc, files, acked, [], h, f, batch);
  }

  lemma ShapeSynced(crc: Checksum, files: Files, acked: AckedSegments, batch: seq<Span>, h: int, f: File)
    requires Shape(crc, files, acked, batch) && h in files && Newest(files.Keys) == h
    requires f.bytes == files[h].bytes && files[h].synced <= f.synced <= |f.bytes|
    ensures Shape(crc, files[h := f], acked, batch)
  {
    hide AckedOk, Records, StoreReady;
    ShapeNewestFile(crc, files, acked, batch, h, f, batch);
  }

  lemma KeysMatch(crc: Checksum, files: Files, acked: AckedSegments, batch: seq<Span>)
    requires Shape(crc, files, acked, batch)
    ensures files.Keys == acked.Keys
  {
  }
}
