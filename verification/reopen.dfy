/** Opening a directory of segments: after a clean stop, after any crash, and
    over whole lifetimes of crashes and restarts. */
module Reopen {
  import opened Trace
  import opened Codec
  import opened Segment
  import opened Recovery
  import opened Indexes
  import opened Sorting
  import opened Disk
  import Search
  import Memory

  /** Files of which at least what reads back is durable: as a crash leaves them,
      and as any attempt to open them leaves them. */
  ghost predicate Durable(crc: Checksum, files: Files) {
    forall h :: h in files ==> Scan(crc, files[h].bytes).good <= files[h].synced <= |files[h].bytes|
  }

  /** Some of what follows the good records of a file is cut off. */
  ghost predicate TrimmedFile(crc: Checksum, before: File, after: File) {
    after.bytes <= before.bytes && Scan(crc, before.bytes).good <= after.synced <= |after.bytes|
  }

  /** A directory on the way to being opened: at most its newest segment has lost
      some of what follows its good records. */
  ghost predicate Trimming(crc: Checksum, files: Files, state: Files) {
    && state.Keys == files.Keys
    && (forall h :: h in files && h != Newest(files.Keys) ==> state[h] == files[h])
    && (forall h :: h in files && h == Newest(files.Keys) ==> TrimmedFile(crc, files[h], state[h]))
  }

  /** Every state since some point was one of those. */
  ghost predicate AllTrimming(crc: Checksum, files: Files, states: seq<Files>, from: nat) {
    forall i :: from <= i < |states| ==> Trimming(crc, files, states[i])
  }

  lemma NotTrimmedYet(crc: Checksum, files: Files)
    requires Durable(crc, files)
    ensures Trimming(crc, files, files)
  {
  }

  lemma TrimmedTail(crc: Checksum, before: File, state: File, after: File)
    requires TrimmedFile(crc, before, state) && CrashedFile(state, after)
    ensures Scan(crc, after.bytes).spans == Scan(crc, before.bytes).spans
  {
    hide Scan;
    var k := |after.bytes|;
    assert after.bytes == before.bytes[..k];
    TailDoesNotMatter(crc, before.bytes, k);
  }

  lemma IntactIsWhole(crc: Checksum, data: Bytes)
    requires Scan(crc, data).intact
    ensures Scan(crc, data).good == |data|
  {
    ScanThrough(crc, data, []);
  }

  lemma SealedStays(crc: Checksum, file: File, after: File)
    requires Scan(crc, file.bytes).intact && Scan(crc, file.bytes).good <= file.synced <= |file.bytes|
    requires CrashedFile(file, after)
    ensures after.bytes == file.bytes
  {
    IntactIsWhole(crc, file.bytes);
  }

  /** Whatever a crash does on the way, the directory opens to the same log. */
  lemma TrimmingSurvives(crc: Checksum, files: Files, state: Files)
    requires Openable(crc, files) && Durable(crc, files) && Trimming(crc, files, state)
    ensures Survives(crc, state, Flat(Recovered(crc, files)), [])
  {
    hide Scan, Flat, AllValid;
    forall after: Files | Crashed(state, after)
      ensures Openable(crc, after) && Recovered(crc, after) == Recovered(crc, files)
    {
      forall h | h in files
        ensures Scan(crc, after[h].bytes).spans == Scan(crc, files[h].bytes).spans
        ensures h != Newest(files.Keys) ==> after[h].bytes == files[h].bytes
      {
        assert CrashedFile(state[h], after[h]);
        if h == Newest(files.Keys) {
          TrimmedTail(crc, files[h], state[h], after[h]);
        } else {
          SealedStays(crc, files[h], after[h]);
        }
      }
    }
    forall after: Files | Crashed(state, after)
      ensures exists j :: 0 <= j <= 0 && Flat(Recovered(crc, after)) == Flat(Recovered(crc, files)) + [][..j]
    {
      assert Flat(Recovered(crc, files)) + [][..0] == Flat(Recovered(crc, files));
    }
  }

  /** And without one too. */
  lemma TrimmingOpens(crc: Checksum, files: Files, state: Files)
    requires Openable(crc, files) && Durable(crc, files) && Trimming(crc, files, state)
    ensures Openable(crc, state) && Durable(crc, state) && Recovered(crc, state) == Recovered(crc, files)
  {
    hide Scan, AllValid;
    forall h | h in files
      ensures Scan(crc, state[h].bytes).spans == Scan(crc, files[h].bytes).spans
      ensures Scan(crc, state[h].bytes).good <= state[h].synced <= |state[h].bytes|
    {
      if h == Newest(files.Keys) {
        var k := |state[h].bytes|;
        assert state[h].bytes == files[h].bytes[..k];
        TailDoesNotMatter(crc, files[h].bytes, k);
      }
    }
  }

  /** What reopening keeps of some segments: their intact prefixes. */
  function Intact(crc: Checksum, files: Files, hours: set<int>): AckedSegments {
    map h | h in files && h in hours ::
      Acked(files[h].bytes[..Scan(crc, files[h].bytes).good], Scan(crc, files[h].bytes).spans)
  }

  ghost function IntactLog(crc: Checksum, files: Files, hours: set<int>): seq<Span> {
    Flat(Spans(Intact(crc, files, hours)))
  }

  predicate Earlier(a: int, b: int) {
    a < b
  }

  /** The segment hours, oldest first. */
  method SortedHours(hours: set<int>) returns (r: seq<int>)
    ensures Lists(r, hours, Earlier)
  {
    var todo, s := hours, [];
    while todo != {}
      invariant todo <= hours && multiset(s) == multiset(hours - todo)
    {
      ghost var some := Sorting.Member(todo);
      var h :| h in todo;
      assert hours - (todo - {h}) == (hours - todo) + {h};
      s := s + [h];
      todo := todo - {h};
    }
    assert hours - todo == hours;
    r := SortFunc(s, Earlier);
    SortedIsListed(r, hours);
  }

  lemma SortedIsListed(r: seq<int>, hours: set<int>)
    requires SortedBy(r, Earlier) && multiset(r) == multiset(hours)
    ensures Lists(r, hours, Earlier)
  {
    forall h
      ensures h in r <==> h in hours
    {
      assert h in r <==> h in multiset(r);
    }
    forall i, j | 0 <= i < j < |r|
      ensures r[i] < r[j]
    {
      assert r[i] != r[j] by {
        if r[i] == r[j] {
          OccursTwice(r, i, j);
          assert false;
        }
      }
    }
  }

  /** One more segment, newer than those before. */
  lemma IntactLogGrows(crc: Checksum, files: Files, hours: set<int>, h: int)
    requires h in files && forall g :: g in hours ==> g < h
    ensures IntactLog(crc, files, hours + {h}) == IntactLog(crc, files, hours) + Scan(crc, files[h].bytes).spans
  {
    hide Scan, Flat;
    var before, after := Spans(Intact(crc, files, hours)), Spans(Intact(crc, files, hours + {h}));
    var spans := Scan(crc, files[h].bytes).spans;
    assert after == before[h := spans];
    assert before - {h} == before;
    FlatAtNewest(before, h, spans);
  }

  /** What one file adds to the store being opened: the spans of its good records.
      Bytes beyond them are forgiven in the newest file, which loses them, and in
      no other. */
  method Replay(crc: Checksum, vol: Volume, mem: Memory.Memory, hour: int, last: bool, ghost log: seq<Span>)
    returns (r: OpenResult)
    requires hour in vol.files && Scan(crc, vol.files[hour].bytes).good <= vol.files[hour].synced <= |vol.files[hour].bytes|
    requires mem.Valid() && !mem.closed && AllValid(log) && mem.View() == Search.InsertedAll(Empty(), log)
    modifies vol, mem, mem.byDuration
    ensures mem.Valid() && !mem.closed && mem.byDuration == old(mem.byDuration)
    ensures var scan := Scan(crc, old(vol.files)[hour].bytes);
            && (r == CorruptSegment ==> !AllValid(scan.spans) || (!scan.intact && !last))
            && (r == OpenFailed ==> old(vol.faults) < vol.faults)
            && old(vol.faults) <= vol.faults
            && (r == Opened ==>
                 && AllValid(scan.spans) && (scan.intact || last)
                 && vol.files == old(vol.files)[hour := File(old(vol.files)[hour].bytes[..scan.good], scan.good)]
                 && AllValid(log + scan.spans)
                 && mem.View() == Search.InsertedAll(Empty(), log + scan.spans))
            && (scan.intact || !last ==> vol.files == old(vol.files) && vol.history == old(vol.history))
    ensures hour in vol.files && vol.files == old(vol.files)[hour := vol.files[hour]]
    ensures TrimmedFile(crc, old(vol.files)[hour], vol.files[hour])
    ensures vol.history == old(vol.history) || vol.history == old(vol.history) + [vol.files]
  {
    hide Scan, Agrees, Search.InsertedAll;
    var read := vol.Attempt();
    if !read { return OpenFailed; }
    var data := vol.files[hour].bytes;
    var spans, good, intact := IntactPrefix(crc, data);
    ghost var scan := Scan(crc, data);
    if !intact {
      if !last { return CorruptSegment; }
      var ok := vol.Truncate(hour, good);
      if !ok { return OpenFailed; }
    } else {
      IntactIsWhole(crc, data);
      assert data[..good] == data;
      assert vol.files[hour] == File(data, good);
    }
    if spans != [] {
      var stored := mem.Write(spans);
      if stored != Memory.Stored { return CorruptSegment; }
      Search.InsertedAllAppends(Empty(), log, spans);
    } else {
      assert log + spans == log;
    }
    r := Opened;
  }

  /** OpenDisk without the eviction it ends with: replays the segments oldest
      first. It reports corruption only of a directory that really has some, and
      otherwise serves exactly the intact records, in order. Whether it opens or
      fails, and at every moment in between, the directory still opens to the
      same log. */
  method Load(crc: Checksum, vol: Volume, retention: int, ghost clock: int) returns (r: OpenResult, d: Disk?)
    requires Durable(crc, vol.files) && forall h :: h in vol.files ==> h <= clock
    modifies vol
    ensures r == CorruptSegment ==> !Openable(crc, old(vol.files))
    ensures r == OpenFailed ==> old(vol.faults) < vol.faults
    ensures r != Opened ==> d == null
    ensures old(vol.faults) <= vol.faults
    ensures old(vol.history) <= vol.history && AllTrimming(crc, old(vol.files), vol.history, |old(vol.history)|)
    ensures Trimming(crc, old(vol.files), vol.files)
    ensures r == Opened ==>
              && d != null && fresh(d) && fresh(d.mem) && fresh(d.mem.byDuration)
              && d.Valid() && !d.closed && !d.dirty && d.failed == [] && d.seg.NoFile?
              && d.crc == crc && d.vol == vol && d.retention == retention && d.clock == clock
              && Openable(crc, old(vol.files))
              && d.acked == Intact(crc, old(vol.files), old(vol.files).Keys)
              && d.Log() == Flat(Recovered(crc, old(vol.files)))
              && AllValid(d.Log()) && d.mem.View() == Search.InsertedAll(Empty(), d.Log())
  {
    hide Scan, Agrees, Search.InsertedAll, IntactLog, Loaded, Shape, Openable, Recovered, Trimming, TrimmedFile, AllTrimming, PartlyLoaded, Intact, Spans, Flat;
    d := null;
    ghost var files := vol.files;
    NotTrimmedYet(crc, files);
    AllTrimmingMore(crc, files, vol.history, vol.history, files);
    var listed := vol.Attempt();
    if !listed { return OpenFailed, null; }
    var mem := new Memory.Memory(retention);
    var hours := SortedHours(vol.files.Keys);
    NothingLoaded(crc, files);
    NothingLoadedYet(crc, files, hours);
    assert Before(hours, 0) == {};
    for i := 0 to |hours|
      invariant fresh(mem) && fresh(mem.byDuration) && mem.retention == retention
      invariant mem.Valid() && !mem.closed && old(vol.faults) <= vol.faults
      invariant AllValid(IntactLog(crc, files, Before(hours, i)))
      invariant mem.View() == Search.InsertedAll(Empty(), IntactLog(crc, files, Before(hours, i)))
      invariant PartlyLoaded(crc, files, vol.files, hours, i)
      invariant i < |hours| ==> vol.files == files && vol.history == old(vol.history)
      invariant old(vol.history) <= vol.history && AllTrimming(crc, files, vol.history, |old(vol.history)|)
      invariant Trimming(crc, files, vol.files)
    {
      var h := hours[i];
      ghost var now, log := vol.files, IntactLog(crc, files, Before(hours, i));
      assert h in hours;
      r := Replay(crc, vol, mem, h, i == |hours| - 1, log);
      OneTrimmed(crc, files, hours, i, vol.files);
      AllTrimmingMore(crc, files, old(vol.history), vol.history, vol.files);
      if r == CorruptSegment {
        CorruptMeansUnopenable(crc, files, hours, i);
      }
      if r != Opened { return; }
      OneMoreLoaded(crc, files, now, hours, i, vol.files);
    }
    TrimmingKeys(crc, files, vol.files);
    LoadedShape(crc, files, vol.files, hours);
    LoadedIsOpenable(crc, files, vol.files, hours);
    IntactIsRecovered(crc, files, hours);
    d := new Disk(crc, vol, mem, retention, Intact(crc, files, files.Keys), clock);
    r := Opened;
  }

  lemma NothingLoadedYet(crc: Checksum, files: Files, hours: seq<int>)
    requires Lists(hours, files.Keys, Earlier)
    ensures PartlyLoaded(crc, files, files, hours, 0)
  {
  }

  lemma AllTrimmingMore(crc: Checksum, files: Files, was: seq<Files>, states: seq<Files>, now: Files)
    requires (states == was || states == was + [now]) && Trimming(crc, files, now)
    ensures AllTrimming(crc, files, states, |was|)
  {
    hide Trimming;
  }

  lemma OneTrimmed(crc: Checksum, files: Files, hours: seq<int>, i: nat, state: Files)
    requires Lists(hours, files.Keys, Earlier) && i < |hours| && hours[i] in files && Durable(crc, files)
    requires hours[i] in state && state == files[hours[i] := state[hours[i]]]
    requires TrimmedFile(crc, files[hours[i]], state[hours[i]])
    requires i < |hours| - 1 ==> state == files
    ensures Trimming(crc, files, state)
  {
    hide Scan;
    if i == |hours| - 1 {
      LastIsNewest(files.Keys, hours);
    } else {
      NotTrimmedYet(crc, files);
    }
  }

  function Before(hours: seq<int>, i: nat): set<int>
    requires i <= |hours|
  {
    set k | 0 <= k < i :: hours[k]
  }

  /** The directory with the first n segments loaded. */
  ghost predicate PartlyLoaded(crc: Checksum, files: Files, now: Files, hours: seq<int>, n: nat) {
    && n <= |hours|
    && now.Keys == files.Keys && Lists(hours, files.Keys, Earlier)
    && (forall k :: n <= k < |hours| && hours[k] in files ==> now[hours[k]] == files[hours[k]])
    && (forall k :: 0 <= k < n && hours[k] in files ==> Loaded(crc, files[hours[k]], now[hours[k]]))
    && (forall k :: 0 <= k < n && k < |hours| - 1 && hours[k] in files ==> Scan(crc, files[hours[k]].bytes).intact)
  }

  ghost predicate Loaded(crc: Checksum, before: File, after: File) {
    var scan := Scan(crc, before.bytes);
    after == File(before.bytes[..scan.good], scan.good) && AllValid(scan.spans)
  }

  lemma NothingLoaded(crc: Checksum, files: Files)
    ensures IntactLog(crc, files, {}) == [] && Search.InsertedAll(Empty(), []) == Empty()
  {
    assert Intact(crc, files, {}) == map[];
    assert Spans(map[]) == map[];
  }

  lemma CorruptMeansUnopenable(crc: Checksum, files: Files, hours: seq<int>, i: nat)
    requires Lists(hours, files.Keys, Earlier) && i < |hours| && hours[i] in files
    requires var scan := Scan(crc, files[hours[i]].bytes);
             !AllValid(scan.spans) || (!scan.intact && i < |hours| - 1)
    ensures !Openable(crc, files)
  {
    hide Scan, AllValid;
    if i < |hours| - 1 {
      assert Earlier(hours[i], hours[i + 1]) && hours[i + 1] in hours;
      assert Newest(files.Keys) != hours[i];
    }
  }

  lemma OneMoreLoaded(crc: Checksum, files: Files, now: Files, hours: seq<int>, i: nat, next: Files)
    requires PartlyLoaded(crc, files, now, hours, i) && i < |hours| && hours[i] in files
    requires var h := hours[i];
             var scan := Scan(crc, files[h].bytes);
             && AllValid(scan.spans) && (scan.intact || i == |hours| - 1)
             && next == now[h := File(files[h].bytes[..scan.good], scan.good)]
    ensures PartlyLoaded(crc, files, next, hours, i + 1)
    ensures IntactLog(crc, files, Before(hours, i + 1)) ==
            IntactLog(crc, files, Before(hours, i)) + Scan(crc, files[hours[i]].bytes).spans
  {
    hide Scan, AllValid, IntactLog;
    var h := hours[i];
    forall k | 0 <= k < |hours| && k != i
      ensures hours[k] != h
    {
      assert k < i ==> Earlier(hours[k], h);
      assert k > i ==> Earlier(h, hours[k]);
    }
    assert Loaded(crc, files[h], next[h]);
    hide Loaded;
    LogOfOneMore(crc, files, hours, i);
  }

  lemma LogOfOneMore(crc: Checksum, files: Files, hours: seq<int>, i: nat)
    requires Lists(hours, files.Keys, Earlier) && i < |hours| && hours[i] in files
    ensures IntactLog(crc, files, Before(hours, i + 1)) ==
            IntactLog(crc, files, Before(hours, i)) + Scan(crc, files[hours[i]].bytes).spans
  {
    hide Scan, IntactLog;
    assert Before(hours, i + 1) == Before(hours, i) + {hours[i]};
    assert forall k :: 0 <= k < i ==> Earlier(hours[k], hours[i]);
    IntactLogGrows(crc, files, Before(hours, i), hours[i]);
  }

  lemma AllLoaded(crc: Checksum, files: Files, now: Files, hours: seq<int>, h: int)
    requires PartlyLoaded(crc, files, now, hours, |hours|) && h in files
    ensures Loaded(crc, files[h], now[h])
  {
    hide Loaded;
    assert h in hours;
  }

  lemma LoadedShape(crc: Checksum, files: Files, now: Files, hours: seq<int>)
    requires PartlyLoaded(crc, files, now, hours, |hours|)
    ensures Shape(crc, now, Intact(crc, files, files.Keys), [])
  {
    hide Scan, AllValid, Shape;
    var acked := Intact(crc, files, files.Keys);
    forall h | h in acked
      ensures AckedOk(crc, acked[h]) && now[h] == File(acked[h].bytes, |acked[h].bytes|)
    {
      IntactPrefixIsIntact(crc, files[h].bytes);
      AllLoaded(crc, files, now, hours, h);
    }
    ShapeOfExact(crc, now, acked);
  }

  lemma LastIsNewest(keys: set<int>, hours: seq<int>)
    requires Lists(hours, keys, Earlier) && hours != []
    ensures hours[|hours| - 1] in keys && hours[|hours| - 1] == Newest(keys)
  {
    var last := hours[|hours| - 1];
    assert last in hours;
    forall g | g in keys
      ensures g <= last
    {
      assert g in hours;
      var k :| 0 <= k < |hours| && hours[k] == g;
      assert k < |hours| - 1 ==> Earlier(hours[k], last);
    }
    NewestIs(keys, last);
  }

  lemma LoadedIsOpenable(crc: Checksum, files: Files, now: Files, hours: seq<int>)
    requires PartlyLoaded(crc, files, now, hours, |hours|)
    ensures Openable(crc, files)
  {
    hide Scan, AllValid;
    forall h | h in files
      ensures AllValid(Scan(crc, files[h].bytes).spans)
    {
      AllLoaded(crc, files, now, hours, h);
    }
    forall h | h in files && h != Newest(files.Keys)
      ensures Scan(crc, files[h].bytes).intact
    {
      assert h in hours;
      LastIsNewest(files.Keys, hours);
      var k :| 0 <= k < |hours| && hours[k] == h;
    }
  }

  lemma IntactIsRecovered(crc: Checksum, files: Files, hours: seq<int>)
    requires Lists(hours, files.Keys, Earlier)
    ensures IntactLog(crc, files, Before(hours, |hours|)) == Flat(Recovered(crc, files))
    ensures Flat(Spans(Intact(crc, files, files.Keys))) == Flat(Recovered(crc, files))
  {
    hide Scan, Flat;
    assert Before(hours, |hours|) == files.Keys;
    assert Spans(Intact(crc, files, files.Keys)) == Recovered(crc, files);
  }

  /** Some of the segments. */
  ghost function Among(segments: Segments, hours: set<int>): Segments {
    map h | h in segments && h in hours :: segments[h]
  }

  lemma KeptIsAmong(crc: Checksum, files: Files, hours: set<int>)
    ensures Spans(Kept(Intact(crc, files, files.Keys), hours)) == Among(Recovered(crc, files), hours)
    ensures hours == files.Keys ==> Among(Recovered(crc, files), hours) == Recovered(crc, files)
  {
    hide Scan;
  }

  /** In every state since some point a crash leaves the spans of the segments it
      has. */
  ghost predicate AllSurvive(crc: Checksum, files: Files, states: seq<Files>, from: nat) {
    forall i :: from <= i < |states| ==>
      Survives(crc, states[i], Flat(Among(Recovered(crc, files), states[i].Keys)), [])
  }

  /** OpenDisk: loads the directory, then evicts what has expired. At every moment
      a crash leaves a directory that opens to the spans of the segments it still
      has. */
  method OpenDisk(crc: Checksum, vol: Volume, retention: int, now: int, ghost clock: int)
    returns (r: OpenResult, d: Disk?)
    requires Durable(crc, vol.files) && forall h :: h in vol.files ==> h <= clock
    modifies vol
    ensures r == CorruptSegment ==> !Openable(crc, old(vol.files))
    ensures r == OpenFailed ==> old(vol.faults) < vol.faults
    ensures old(vol.history) <= vol.history
    ensures Openable(crc, old(vol.files)) ==> AllSurvive(crc, old(vol.files), vol.history, |old(vol.history)|)
    ensures r == Opened ==>
              && d != null && fresh(d) && fresh(d.mem) && fresh(d.mem.byDuration)
              && d.Valid() && !d.closed && d.vol == vol && d.clock == clock && d.seg.NoFile?
              && Openable(crc, old(vol.files))
              && d.Log() == Flat(Among(Recovered(crc, old(vol.files)), vol.files.Keys))
              && (retention <= 0 ==> d.Log() == Flat(Recovered(crc, old(vol.files))))
    ensures vol.files.Keys <= old(vol.files).Keys
    ensures forall h :: h in old(vol.files) && h !in vol.files ==> r == Opened && retention > 0 && Over(h, now - retention)
    ensures r == Opened && retention > 0 && vol.faults == old(vol.faults) ==>
              forall h :: h in vol.files ==> !Over(h, now - retention)
  {
    hide Scan, Agrees, Search.InsertedAll, Openable, Recovered, Flat, Spans, Trimming, AllTrimming, Among, Kept, Intact,
      Durable, AllSurvive, Over, Shape, AllValid;
    ghost var files := vol.files;
    r, d := Load(crc, vol, retention, clock);
    TrimmingKeys(crc, files, vol.files);
    if Openable(crc, files) {
      TrimmingAllSurvive(crc, files, vol.history, |old(vol.history)|);
    }
    if r == Opened {
      EvictOpened(d, now, files, |old(vol.history)|);
    }
  }

  /** The eviction OpenDisk ends with. */
  method EvictOpened(d: Disk, now: int, ghost files: Files, ghost from: nat)
    requires d.Valid() && !d.closed && d.failed == [] && d.seg.NoFile?
    requires d.acked == Intact(d.crc, files, files.Keys) && d.vol.files.Keys == files.Keys
    requires from <= |d.vol.history| && AllSurvive(d.crc, files, d.vol.history, from)
    modifies d, d.vol, d.mem, d.mem.byDuration
    ensures d.Valid() && !d.closed && d.clock == old(d.clock) && d.seg.NoFile?
    ensures d.mem.byDuration == old(d.mem.byDuration)
    ensures old(d.vol.history) <= d.vol.history && AllSurvive(d.crc, files, d.vol.history, from)
    ensures d.Log() == Flat(Among(Recovered(d.crc, files), d.vol.files.Keys))
    ensures old(d.vol.faults) <= d.vol.faults && d.vol.files.Keys <= files.Keys
    ensures d.retention <= 0 ==> d.vol.files == old(d.vol.files) && d.Log() == Flat(Recovered(d.crc, files))
    ensures forall h :: h in files && h !in d.vol.files ==> Over(h, now - d.retention)
    ensures d.retention > 0 && d.vol.faults == old(d.vol.faults) ==>
              forall h :: h in d.vol.files ==> !Over(h, now - d.retention)
  {
    hide Scan, Agrees, Search.InsertedAll, Recovered, Flat, Spans, Survives, Among, Kept, Intact, AllSurvive, Over, Shape, AllValid;
    var evicted := d.EvictExpired(now);
    KeptAllSurvive(d.crc, files, old(d.vol.history), d.vol.history, from);
    KeptIsAmong(d.crc, files, files.Keys);
    KeptIsAmong(d.crc, files, d.vol.files.Keys);
  }

  lemma TrimmingAllSurvive(crc: Checksum, files: Files, states: seq<Files>, from: nat)
    requires Durable(crc, files) && Openable(crc, files) && AllTrimming(crc, files, states, from)
    ensures AllSurvive(crc, files, states, from)
  {
    hide Scan, Openable, Recovered, Flat, Survives, Trimming, Among, Kept, Intact, Durable;
    forall i | from <= i < |states|
      ensures Survives(crc, states[i], Flat(Among(Recovered(crc, files), states[i].Keys)), [])
    {
      TrimmingSurvives(crc, files, states[i]);
      TrimmingKeys(crc, files, states[i]);
      KeptIsAmong(crc, files, files.Keys);
    }
  }

  lemma KeptAllSurvive(crc: Checksum, files: Files, was: seq<Files>, states: seq<Files>, from: nat)
    requires from <= |was| && was <= states && AllSurvive(crc, files, was, from)
    requires forall i :: |was| <= i < |states| ==>
               Survives(crc, states[i], Flat(Spans(Kept(Intact(crc, files, files.Keys), states[i].Keys))), [])
    ensures AllSurvive(crc, files, states, from)
  {
    hide Recovered, Flat, Spans, Survives, Among, Kept, Intact;
    forall i | from <= i < |states|
      ensures Survives(crc, states[i], Flat(Among(Recovered(crc, files), states[i].Keys)), [])
    {
      if i < |was| {
        assert states[i] == was[i];
      } else {
        KeptIsAmong(crc, files, states[i].Keys);
      }
    }
  }

  lemma TrimmingKeys(crc: Checksum, files: Files, state: Files)
    requires Trimming(crc, files, state)
    ensures state.Keys == files.Keys
  {
  }

  lemma CrashIsDurable(crc: Checksum, before: Files, after: Files)
    requires Crashed(before, after)
    ensures Durable(crc, after)
  {
    hide Scan;
    forall h | h in after
      ensures Scan(crc, after[h].bytes).good <= after[h].synced <= |after[h].bytes|
    {
      assert CrashedFile(before[h], after[h]);
    }
  }

  /** Reopening after a crash, at whatever moment it struck and whatever it tore:
      never a corrupt segment, and every span of the log in order, followed at
      most by whole records of the batch that was under way. */
  method Recover(crc: Checksum, vol: Volume, retention: int, ghost clock: int,
                 ghost frozen: Files, ghost log: seq<Span>, ghost batch: seq<Span>)
    returns (r: OpenResult, d: Disk?, ghost n: nat)
    requires Survives(crc, frozen, log, batch) && Crashed(frozen, vol.files)
    requires forall h :: h in vol.files ==> h <= clock
    modifies vol
    ensures r != CorruptSegment
    ensures r == OpenFailed ==> old(vol.faults) < vol.faults
    ensures r == Opened ==>
              && d != null && fresh(d) && fresh(d.mem) && fresh(d.mem.byDuration)
              && d.Valid() && !d.closed && !d.dirty && d.failed == []
              && d.crc == crc && d.vol == vol && d.clock == clock && d.retention == retention
              && n <= |batch| && d.Log() == log + batch[..n]
              && AllValid(d.Log()) && d.mem.View() == Search.InsertedAll(Empty(), d.Log())
  {
    hide Scan, Agrees, Search.InsertedAll, Openable, Recovered, Flat, Durable, Trimming, Intact;
    CrashIsDurable(crc, frozen, vol.files);
    ghost var j :| 0 <= j <= |batch| && Flat(Recovered(crc, vol.files)) == log + batch[..j];
    n := j;
    r, d := Load(crc, vol, retention, clock);
  }

  /** With zero retention and nothing dirty, a crash and a restart bring back
      exactly the store the live process was serving. */
  method Restart(live: Disk, vol: Volume) returns (r: OpenResult, d: Disk?)
    requires live.Valid() && !live.closed && !live.dirty && live.retention <= 0
    requires vol != live.vol && Crashed(live.vol.files, vol.files)
    modifies vol
    ensures r != CorruptSegment
    ensures r == OpenFailed ==> old(vol.faults) < vol.faults
    ensures r == Opened ==>
              d != null && fresh(d) && d.Valid() && d.Log() == live.Log() && d.mem.View() == live.mem.View()
  {
    hide Shape, Survives, Agrees, Search.InsertedAll, Flat, Spans;
    live.AtRest();
    ghost var n;
    r, d, n := Recover(live.crc, vol, live.retention, live.clock, live.vol.files, live.Log(), []);
    if r == Opened {
      assert live.Log() + [][..n] == live.Log();
    }
  }

  // -------------------------------------------------------------- lifetimes

  /** One thing that happens: a write; a write during which the machine crashes;
      the store closed and the machine switched off; or an attempt to open the
      store, during which it may crash too. */
  datatype Act =
    | Writes(spans: seq<Span>, at: int)
    | Crashes(spans: seq<Span>, at: int)
    | Stops(at: int)
    | Opens(crash: bool, at: int)

  /** What one act left in the log: an acknowledged batch, nothing, or the first
      whole records of a batch that was never acknowledged. */
  datatype Piece = Told(batch: seq<Span>) | Nothing | Left(batch: seq<Span>, n: nat)

  ghost function Spelled(p: Piece): seq<Span> {
    match p
    case Told(batch) => batch
    case Nothing => []
    case Left(batch, n) => if n <= |batch| then batch[..n] else batch
  }

  ghost function Joined(pieces: seq<Piece>): seq<Span> {
    if pieces == [] then [] else Joined(pieces[..|pieces| - 1]) + Spelled(pieces[|pieces| - 1])
  }

  /** Some outcome of a crash: every file keeps its durable part and any part of
      the rest. */
  method Tear(files: Files) returns (after: Files)
    ensures Crashed(files, after)
  {
    after := map[];
    var todo := files.Keys;
    while todo != {}
      invariant todo <= files.Keys && after.Keys == files.Keys - todo
      invariant forall h :: h in after ==> CrashedFile(files[h], after[h])
    {
      ghost var some := Sorting.Member(todo);
      var h :| h in todo;
      var f := files[h];
      var n: nat := *;
      if !(f.synced <= n <= |f.bytes|) {
        n := |f.bytes|;
      }
      after := after[h := File(f.bytes[..n], n)];
      todo := todo - {h};
    }
  }

  /** A directory no process has open, that any attempt to open and any crash
      leaves opening to the same log. */
  ghost predicate Holding(crc: Checksum, files: Files, log: seq<Span>, hour: int) {
    && Openable(crc, files) && Durable(crc, files) && Flat(Recovered(crc, files)) == log
    && forall h :: h in files ==> h <= hour
  }

  /** The machine stops in some state of a volume. */
  method Halt(crc: Checksum, states: seq<Files>, now: Files, from: nat, ghost log: seq<Span>, ghost a: seq<Span>,
              ghost b: seq<Span>, ghost hour: int)
    returns (vol: Volume, ghost batch: seq<Span>, ghost n: nat)
    requires Safe(crc, now, hour, log, a, b) && Covered(crc, states, from, hour, log, a, b)
    ensures fresh(vol) && vol.history == [] && (batch == a || batch == b) && n <= |batch|
    ensures Holding(crc, vol.files, log + batch[..n], hour)
  {
    hide Survives, Openable, Recovered, Flat, Durable, Crashed;
    var frozen := now;
    var i: nat := *;
    if from <= i < |states| {
      frozen := states[i];
    }
    batch := if Survives(crc, frozen, log, a) then a else b;
    var after := Tear(frozen);
    vol := new Volume(after);
    CrashIsDurable(crc, frozen, after);
    n := SurvivesAs(crc, frozen, after, log, batch);
    CrashKeepsHours(frozen, after);
  }

  lemma SurvivesAs(crc: Checksum, frozen: Files, after: Files, log: seq<Span>, batch: seq<Span>) returns (n: nat)
    requires Survives(crc, frozen, log, batch) && Crashed(frozen, after)
    ensures Openable(crc, after) && n <= |batch| && Flat(Recovered(crc, after)) == log + batch[..n]
  {
    hide Openable, Recovered, Flat, Crashed;
    var j :| 0 <= j <= |batch| && Flat(Recovered(crc, after)) == log + batch[..j];
    n := j;
  }

  lemma CrashKeepsHours(before: Files, after: Files)
    requires Crashed(before, after)
    ensures after.Keys == before.Keys
  {
  }

  /** A crash during a write, at any moment of it: the log before the write
      survives, and of the unacknowledged batches at most one leaves whole
      records behind. */
  method CrashDuring(d: Disk, spans: seq<Span>, now: int) returns (vol: Volume, ghost left: Piece)
    requires d.Valid() && !d.closed && d.clock <= Hour(now)
    modifies d, d.vol, d.mem, d.mem.byDuration
    ensures fresh(vol) && vol.history == []
    ensures left.Left? && left.n <= |left.batch| && (left.batch == old(d.failed) || left.batch == spans)
    ensures Holding(d.crc, vol.files, old(d.Log()) + left.batch[..left.n], Hour(now))
  {
    hide Hour, Shape, Survives, Agrees, Search.InsertedAll, Flat, Spans, Crashed, Holding;
    d.AtRest();
    ghost var hour := Hour(now);
    ghost var log, failed := d.Log(), d.failed;
    var before, start := d.vol.files, |d.vol.history|;
    assert Safe(d.crc, before, hour, log, failed, spans);
    var outcome := d.Write(spans, now);
    CoveredLater(d.crc, d.vol.history, start, d.clock, hour, log, failed, spans);
    ghost var batch, n;
    vol, batch, n := Halt(d.crc, d.vol.history, before, start, log, failed, spans, hour);
    left := Left(batch, n);
  }

  /** The store closed, whether or not that worked, and the machine switched off:
      nothing is lost, and only a failed append that was never undone may leave
      whole records behind. */
  method StopCleanly(d: Disk, hour: int) returns (vol: Volume, ghost left: Piece)
    requires d.Valid() && !d.closed && d.clock <= hour
    modifies d, d.vol, d.mem
    ensures fresh(vol) && vol.history == []
    ensures left.Left? && left.n <= |left.batch| && left.batch == old(d.failed)
    ensures Holding(d.crc, vol.files, old(d.Log()) + left.batch[..left.n], hour)
  {
    hide Shape, Survives, Agrees, Search.InsertedAll, Flat, Spans, Crashed, Holding;
    ghost var log, failed := d.Log(), d.failed;
    var closed := d.Close();
    d.AtRest();
    assert Safe(d.crc, d.vol.files, hour, log, failed, failed);
    ghost var batch, n;
    vol, batch, n := Halt(d.crc, [], d.vol.files, 0, log, failed, failed, hour);
    left := Left(batch, n);
  }

  lemma CoveredLater(crc: Checksum, states: seq<Files>, from: nat, clock: int, hour: int,
                     log: seq<Span>, a: seq<Span>, b: seq<Span>)
    requires Covered(crc, states, from, clock, log, a, b) && clock <= hour
    ensures Covered(crc, states, from, hour, log, a, b)
  {
    hide Survives;
  }

  /** An attempt to open the store, which may succeed, fail, or be cut short by
      another crash at any moment. Whatever happens, nothing is lost. */
  method Attempt(crc: Checksum, vol: Volume, crash: bool, ghost log: seq<Span>, hour: int)
    returns (r: OpenResult, d: Disk?, left: Volume)
    requires Holding(crc, vol.files, log, hour)
    modifies vol
    ensures r != CorruptSegment
    ensures d != null ==>
              && r == Opened && fresh(d) && d.vol == vol && fresh(d.mem) && fresh(d.mem.byDuration)
              && d.Valid() && !d.closed && d.failed == [] && d.clock == hour && d.crc == crc && d.Log() == log
    ensures d == null ==> (left == vol || fresh(left)) && Holding(crc, left.files, log, hour)
    ensures d == null && !crash ==> old(vol.faults) < vol.faults
  {
    hide Shape, Survives, Agrees, Search.InsertedAll, Flat, Spans, Openable, Recovered, Durable, Trimming, Intact;
    ghost var files := vol.files;
    var start := |vol.history|;
    left := vol;
    r, d := Load(crc, vol, 0, hour);
    TrimmingSurvives(crc, files, vol.files);
    TrimmingOpens(crc, files, vol.files);
    TrimmingKeys(crc, files, vol.files);
    if crash {
      d := null;
      AllTrimmingIsSafe(crc, files, vol.history, start, log, hour);
      ghost var batch, n;
      left, batch, n := Halt(crc, vol.history, vol.files, start, log, [], [], hour);
      assert log + [][..n] == log;
    }
  }

  lemma AllTrimmingIsSafe(crc: Checksum, files: Files, states: seq<Files>, from: nat, log: seq<Span>, hour: int)
    requires Holding(crc, files, log, hour) && AllTrimming(crc, files, states, from)
    ensures Covered(crc, states, from, hour, log, [], [])
  {
    hide Survives, Flat, Openable, Recovered, Durable, Trimming;
    forall i | from <= i < |states|
      ensures Safe(crc, states[i], hour, log, [], [])
    {
      TrimmingSurvives(crc, files, states[i]);
      TrimmingKeys(crc, files, states[i]);
    }
  }

  ghost predicate HoursRise(acts: seq<Act>) {
    forall i, j :: 0 <= i < j < |acts| ==> Hour(acts[i].at) <= Hour(acts[j].at)
  }

  ghost function Batch(a: Act): seq<Span> {
    if a.Opens? || a.Stops? then [] else a.spans
  }

  /** Whether it takes a running store down. */
  predicate Ends(a: Act) {
    a.Crashes? || a.Stops?
  }

  /** Nothing was acknowledged, and the store did not go down, from act j to act i. */
  ghost predicate Pending(acts: seq<Act>, told: seq<bool>, j: nat, i: nat)
    requires |told| <= |acts|
  {
    j <= i <= |told| && forall k :: j <= k < i ==> !Ends(acts[k]) && !told[k]
  }

  /** What act i left is what its client was told: the whole batch if it was
      acknowledged, nothing if not, and where the store went down at most a
      beginning of the one batch that was under way or failed last. */
  ghost predicate Explained(acts: seq<Act>, told: seq<bool>, pieces: seq<Piece>, i: nat)
    requires i < |told| == |pieces| <= |acts|
  {
    match pieces[i]
    case Told(batch) => acts[i].Writes? && told[i] && batch == acts[i].spans
    case Nothing => !told[i]
    case Left(batch, n) =>
      Ends(acts[i]) && !told[i] && n <= |batch| &&
      (batch == [] || exists j :: 0 <= j <= i && batch == Batch(acts[j]) && Pending(acts, told, j, i))
  }

  ghost predicate AllExplained(acts: seq<Act>, told: seq<bool>, pieces: seq<Piece>) {
    |told| == |pieces| <= |acts| && forall i :: 0 <= i < |told| ==> Explained(acts, told, pieces, i)
  }

  /** The batch that may still be in the file is the one that failed last. */
  ghost predicate FailedLast(acts: seq<Act>, told: seq<bool>, failed: seq<Span>)
    requires |told| <= |acts|
  {
    failed == [] || exists j :: 0 <= j < |told| && failed == Batch(acts[j]) && Pending(acts, told, j, |told|)
  }

  lemma PendingLonger(acts: seq<Act>, told: seq<bool>, more: bool, j: nat, i: nat)
    requires |told| < |acts| && i <= |told| && Pending(acts, told, j, i)
    ensures Pending(acts, told + [more], j, i)
    ensures i == |told| && !Ends(acts[i]) && !more ==> Pending(acts, told + [more], j, i + 1)
  {
  }

  lemma ExplainedMore(acts: seq<Act>, told: seq<bool>, pieces: seq<Piece>, more: bool, p: Piece)
    requires AllExplained(acts, told, pieces) && |told| < |acts|
    requires Explained(acts, told + [more], pieces + [p], |told|)
    ensures AllExplained(acts, told + [more], pieces + [p])
  {
    forall i | 0 <= i < |told|
      ensures Explained(acts, told + [more], pieces + [p], i)
    {
      assert Explained(acts, told, pieces, i);
      if pieces[i].Left? && pieces[i].batch != [] {
        var j :| 0 <= j <= i && pieces[i].batch == Batch(acts[j]) && Pending(acts, told, j, i);
        PendingLonger(acts, told, more, j, i);
      }
    }
  }

  /** Something was refused: what may be in the file is its batch, or what was. */
  lemma FailedAgain(acts: seq<Act>, told: seq<bool>, was: seq<Span>, failed: seq<Span>)
    requires |told| < |acts| && !Ends(acts[|told|]) && FailedLast(acts, told, was)
    requires failed == [] || failed == was || failed == Batch(acts[|told|])
    ensures FailedLast(acts, told + [false], failed)
  {
    var i := |told|;
    if failed == Batch(acts[i]) {
      assert Pending(acts, told + [false], i, i + 1);
    } else if failed != [] {
      var j :| 0 <= j < i && was == Batch(acts[j]) && Pending(acts, told, j, i);
      PendingLonger(acts, told, false, j, i);
    }
  }

  lemma NoneFailed(acts: seq<Act>, told: seq<bool>)
    requires |told| <= |acts|
    ensures FailedLast(acts, told, [])
  {
  }

  /** An act that did not take a running store down. */
  lemma ActExplained(acts: seq<Act>, told: seq<bool>, pieces: seq<Piece>, was: seq<Span>, failed: seq<Span>, ok: bool)
    requires AllExplained(acts, told, pieces) && |told| < |acts| && FailedLast(acts, told, was)
    requires ok ==> acts[|told|].Writes? && failed == []
    requires Ends(acts[|told|]) ==> failed == []
    requires failed == [] || failed == was || failed == Batch(acts[|told|])
    ensures AllExplained(acts, told + [ok], pieces + [if ok then Told(Batch(acts[|told|])) else Nothing])
    ensures FailedLast(acts, told + [ok], failed)
  {
    if failed == [] {
      NoneFailed(acts, told + [ok]);
    } else {
      FailedAgain(acts, told, was, failed);
    }
    ExplainedMore(acts, told, pieces, ok, if ok then Told(Batch(acts[|told|])) else Nothing);
  }

  lemma CrashExplained(acts: seq<Act>, told: seq<bool>, pieces: seq<Piece>, failed: seq<Span>, left: Piece)
    requires AllExplained(acts, told, pieces)
    requires |told| == |pieces| < |acts| && Ends(acts[|told|]) && FailedLast(acts, told, failed)
    requires left.Left? && left.n <= |left.batch| && (left.batch == failed || left.batch == Batch(acts[|told|]))
    ensures AllExplained(acts, told + [false], pieces + [left])
  {
    var i := |told|;
    if left.batch == Batch(acts[i]) {
      assert Pending(acts, told + [false], i, i);
    } else if left.batch != [] {
      var j :| 0 <= j < i && failed == Batch(acts[j]) && Pending(acts, told, j, i);
      PendingLonger(acts, told, false, j, i);
    }
    ExplainedMore(acts, told, pieces, false, left);
  }

  /** A store that is up, with a log. */
  ghost predicate Up(d: Disk, crc: Checksum, vol: Volume, log: seq<Span>, hour: int)
    reads d, d.vol, d.mem, d.mem.byDuration
  {
    d.Valid() && !d.closed && d.crc == crc && d.vol == vol && d.Log() == log && d.clock <= hour
  }

  /** A whole life of a store with zero retention: any writes, any failures of
      any file operation, any stops and attempts to open it, and any number of
      crashes at any moments, those of opening it included. No attempt ever finds
      a corrupt segment, and up or down the log is at every point, in order, every
      acknowledged batch whole and nothing else but, where the store went down, a
      beginning of the one batch that was under way or failed last. */
  method Lifetime(crc: Checksum, acts: seq<Act>)
    returns (d: Disk?, vol: Volume, corrupt: bool, told: seq<bool>, ghost pieces: seq<Piece>, ghost hour: int)
    requires HoursRise(acts)
    ensures !corrupt && |told| == |acts| && AllExplained(acts, told, pieces)
    ensures d != null ==> Up(d, crc, vol, Joined(pieces), hour)
    ensures d == null ==> Holding(crc, vol.files, Joined(pieces), hour)
  {
    hide Up, Holding, AllExplained, FailedLast, Joined, Spelled;
    vol := new Volume(map[]);
    d, corrupt, told, pieces := null, false, [], [];
    hour := if acts == [] then 0 else Hour(acts[0].at);
    EmptyDirectory(crc, hour);
    NothingYet(acts);
    ghost var failed: seq<Span> := [];
    for i := 0 to |acts|
      invariant !corrupt && |told| == i && |pieces| == i && (i < |acts| ==> hour <= Hour(acts[i].at))
      invariant AllExplained(acts, told, pieces) && FailedLast(acts, told, failed)
      invariant fresh(vol) && (d != null ==> fresh(d) && fresh(d.mem) && fresh(d.mem.byDuration))
      invariant d != null ==> Up(d, crc, vol, Joined(pieces), hour) && d.failed == failed
      invariant d == null ==> Holding(crc, vol.files, Joined(pieces), hour)
    {
      ghost var piece, was := Nothing, failed;
      var ok, found;
      if d != null {
        UpLater(d, crc, vol, Joined(pieces), hour, Hour(acts[i].at));
      } else {
        HoldingLater(crc, vol.files, Joined(pieces), hour, Hour(acts[i].at));
      }
      hour := Hour(acts[i].at);
      d, vol, ok, found, piece, failed := Live(crc, d, vol, acts[i], Joined(pieces), failed);
      corrupt := corrupt || found;
      PiecesMore(pieces, piece);
      if piece.Left? {
        CrashExplained(acts, told, pieces, was, piece);
        NoneFailed(acts, told + [false]);
      } else {
        ActExplained(acts, told, pieces, was, failed, ok);
      }
      told, pieces := told + [ok], pieces + [piece];
    }
  }

  lemma UpLater(d: Disk, crc: Checksum, vol: Volume, log: seq<Span>, hour: int, later: int)
    requires Up(d, crc, vol, log, hour) && hour <= later
    ensures Up(d, crc, vol, log, later)
  {
  }

  lemma HoldingLater(crc: Checksum, files: Files, log: seq<Span>, hour: int, later: int)
    requires Holding(crc, files, log, hour) && hour <= later
    ensures Holding(crc, files, log, later)
  {
    hide Openable, Durable, Flat, Recovered;
  }

  /** What an act comes to: a batch acknowledged, nothing, or what the store going
      down left; and which batch failed last after it. */
  ghost predicate Outcome(act: Act, piece: Piece, ok: bool, was: seq<Span>, failed: seq<Span>) {
    match piece
    case Told(batch) => ok && act.Writes? && batch == act.spans && failed == []
    case Nothing => !ok && (failed == [] || (!Ends(act) && (failed == was || failed == Batch(act))))
    case Left(batch, n) =>
      !ok && Ends(act) && n <= |batch| && (batch == was || batch == Batch(act)) && failed == []
  }

  /** One act in the life of a store that is up or down. */
  method Live(crc: Checksum, d: Disk?, vol: Volume, act: Act, ghost log: seq<Span>, ghost failed: seq<Span>)
    returns (d': Disk?, vol': Volume, ok: bool, corrupt: bool, ghost piece: Piece, ghost failed': seq<Span>)
    requires d != null ==> Up(d, crc, vol, log, Hour(act.at)) && d.failed == failed
    requires d == null ==> Holding(crc, vol.files, log, Hour(act.at))
    modifies vol, if d == null then {} else {d, d.mem, d.mem.byDuration}
    ensures !corrupt && (vol' == vol || fresh(vol'))
    ensures d' != null ==> Up(d', crc, vol', log + Spelled(piece), Hour(act.at)) && d'.failed == failed'
    ensures d' != null ==> if d' == d then d'.mem.byDuration == old(d.mem.byDuration)
                           else fresh(d') && fresh(d'.mem) && fresh(d'.mem.byDuration)
    ensures d' == null ==> Holding(crc, vol'.files, log + Spelled(piece), Hour(act.at)) && failed' == []
    ensures Outcome(act, piece, ok, failed, failed')
  {
    hide Holding, Outcome;
    assert log + [] == log;
    corrupt := false;
    if d != null {
      hide Up;
      d', vol', ok, piece, failed' := LiveUp(crc, d, vol, act, log, failed);
    } else {
      d', vol', ok, piece, failed' := null, vol, false, Nothing, [];
      NothingHappens(act, failed);
      if act.Opens? {
        var r;
        r, d', vol' := Attempt(crc, vol, act.crash, log, Hour(act.at));
        corrupt := r == CorruptSegment;
        if d' != null {
          vol' := vol;
        }
      }
    }
  }

  lemma NothingHappens(act: Act, was: seq<Span>)
    ensures Outcome(act, Nothing, false, was, [])
  {
  }

  /** One act in the life of a store that is up. */
  method LiveUp(crc: Checksum, d: Disk, vol: Volume, act: Act, ghost log: seq<Span>, ghost failed: seq<Span>)
    returns (d': Disk?, vol': Volume, ok: bool, ghost piece: Piece, ghost failed': seq<Span>)
    requires Up(d, crc, vol, log, Hour(act.at)) && d.failed == failed
    modifies vol, d, d.mem, d.mem.byDuration
    ensures vol' == vol || fresh(vol')
    ensures d' != null ==> d' == d && Up(d', crc, vol', log + Spelled(piece), Hour(act.at)) && d'.failed == failed'
    ensures d' != null ==> d'.mem.byDuration == old(d.mem.byDuration)
    ensures d' == null ==> Holding(crc, vol'.files, log + Spelled(piece), Hour(act.at)) && failed' == []
    ensures Outcome(act, piece, ok, failed, failed')
  {
    hide Holding, Shape, Survives, Agrees, Search.InsertedAll, Flat, Spans;
    d', vol', ok, piece, failed' := d, vol, false, Nothing, failed;
    assert log + [] == log;
    match act
    case Writes(spans, now) =>
      var w := d.Write(spans, now);
      ok := w == WriteResult.Acknowledged;
      piece := if ok then Told(spans) else Nothing;
      failed' := d.failed;
    case Crashes(spans, now) =>
      vol', piece := CrashDuring(d, spans, now);
      d', failed' := null, [];
    case Stops(now) =>
      vol', piece := StopCleanly(d, Hour(now));
      d', failed' := null, [];
    case Opens(_, _) =>
  }

  lemma NothingYet(acts: seq<Act>)
    ensures AllExplained(acts, [], []) && FailedLast(acts, [], []) && Joined([]) == []
  {
  }

  lemma PiecesMore(pieces: seq<Piece>, p: Piece)
    ensures Joined(pieces + [p]) == Joined(pieces) + Spelled(p)
  {
    assert (pieces + [p])[..|pieces|] == pieces;
  }

  lemma EmptyDirectory(crc: Checksum, hour: int)
    ensures Holding(crc, map[], [], hour)
  {
  }
}
