/** The durable store as it runs, on files whose every operation may fail, and
    through a crash between any two of them. */
module Disk {
  import opened Trace
  import opened Codec
  import opened Segment
  import opened Recovery
  import opened Indexes
  import opened Search
  import Decoder
  import Memory
  import Sorting

  /** The directory of segment files. It remembers every state it passes
      through, because a crash may freeze any of them, and how many operations
      have failed. */
  class Volume {
    var files: Files
    var history: seq<Files>
    ghost var faults: nat

    constructor (files: Files)
      ensures this.files == files && history == [] && faults == 0
    {
      this.files := files;
      history := [];
      faults := 0;
    }

    /** The outcome of one operation. */
    method Attempt() returns (ok: bool)
      modifies this`faults
      ensures faults == old(faults) + if ok then 0 else 1
    {
      ok := *;
      if !ok {
        faults := faults + 1;
      }
    }

    /** Writes b at an offset, or fails with any part of it written. */
    method Write(hour: int, pos: nat, b: Bytes) returns (ok: bool)
      requires hour in files && pos == |files[hour].bytes|
      modifies this
      ensures exists n: nat :: n <= |b| && (ok ==> n == |b|) && files ==
                old(files)[hour := File(old(files)[hour].bytes + b[..n], old(files)[hour].synced)]
      ensures history == old(history) + [files]
      ensures faults == old(faults) + if ok then 0 else 1
    {
      ok := Attempt();
      var n: nat :| n <= |b| && (ok ==> n == |b|);
      files := files[hour := File(files[hour].bytes + b[..n], files[hour].synced)];
      history := history + [files];
    }

    /** Makes a file durable, or fails with any more of it durable. */
    method Sync(hour: int) returns (ok: bool)
      requires hour in files && files[hour].synced <= |files[hour].bytes|
      modifies this
      ensures exists n: nat :: old(files)[hour].synced <= n <= |old(files)[hour].bytes|
                && (ok ==> n == |old(files)[hour].bytes|)
                && files == old(files)[hour := File(old(files)[hour].bytes, n)]
      ensures history == old(history) + [files]
      ensures faults == old(faults) + if ok then 0 else 1
    {
      ok := Attempt();
      var f := files[hour];
      var n: nat :| f.synced <= n <= |f.bytes| && (ok ==> n == |f.bytes|);
      files := files[hour := File(f.bytes, n)];
      history := history + [files];
    }

    /** Cuts a file to a size, durably, or fails with any less of it cut. */
    method Truncate(hour: int, size: nat) returns (ok: bool)
      requires hour in files && size <= files[hour].synced <= |files[hour].bytes|
      modifies this
      ensures exists n: nat, m: nat :: size <= m <= n <= |old(files)[hour].bytes| && (ok ==> n == size)
                && files == old(files)[hour := File(old(files)[hour].bytes[..n], m)]
      ensures history == old(history) + [files]
      ensures faults == old(faults) + if ok then 0 else 1
    {
      ok := Attempt();
      var f := files[hour];
      var n: nat :| size <= n <= |f.bytes| && (ok ==> n == size);
      var m := if n < f.synced then n else f.synced;
      files := files[hour := File(f.bytes[..n], m)];
      history := history + [files];
    }

    /** Opens a file, creating an empty one if there is none; a failure may
        have created it too. */
    method Open(hour: int) returns (ok: bool)
      modifies this
      ensures files == old(files) || (hour !in old(files) && files == old(files)[hour := File([], 0)])
      ensures ok ==> hour in files
      ensures history == old(history) + [files]
      ensures faults == old(faults) + if ok then 0 else 1
    {
      ok := Attempt();
      var created: bool := *;
      if hour !in files && (ok || created) {
        files := files[hour := File([], 0)];
      }
      history := history + [files];
    }

    method Remove(hour: int) returns (ok: bool)
      modifies this
      ensures files == if ok then old(files) - {hour} else old(files)
      ensures history == old(history) + [files]
      ensures faults == old(faults) + if ok then 0 else 1
    {
      ok := Attempt();
      if ok {
        files := files - {hour};
      }
      history := history + [files];
    }
  }

  datatype Handle = NoFile | Handle(hour: int, pos: nat)

  datatype WriteResult = Acknowledged | Rejected | IsClosed | TooLarge | Failed

  datatype OpenResult = Opened | CorruptSegment | OpenFailed

  /** A directory with no segment past the clock, of which any crash leaves the
      log and whole records of one of two batches. */
  ghost predicate Safe(crc: Checksum, files: Files, clock: int, log: seq<Span>, a: seq<Span>, b: seq<Span>) {
    && (forall h :: h in files ==> h <= clock)
    && (Survives(crc, files, log, a) || Survives(crc, files, log, b))
  }

  /** Every state a volume passed through from some point on was safe. */
  ghost predicate Covered(crc: Checksum, states: seq<Files>, from: nat, clock: int,
                          log: seq<Span>, a: seq<Span>, b: seq<Span>)
  {
    forall i :: from <= i < |states| ==> Safe(crc, states[i], clock, log, a, b)
  }

  lemma ShapeIsSafe(crc: Checksum, files: Files, acked: AckedSegments, clock: int, a: seq<Span>, b: seq<Span>)
    requires Shape(crc, files, acked, a) && forall h :: h in files ==> h <= clock
    ensures Safe(crc, files, clock, Flat(Spans(acked)), a, b)
    ensures Safe(crc, files, clock, Flat(Spans(acked)), b, a)
  {
    hide Shape, Survives, Flat;
    ShapeSurvives(crc, files, acked, a);
  }

  lemma CoveredAlso(crc: Checksum, states: seq<Files>, from: nat, clock: int,
                    log: seq<Span>, a: seq<Span>, b: seq<Span>)
    requires Covered(crc, states, from, clock, log, a, [])
    ensures Covered(crc, states, from, clock, log, a, b) && Covered(crc, states, from, clock, log, b, a)
  {
    hide Survives;
    forall i | from <= i < |states|
      ensures Safe(crc, states[i], clock, log, a, b) && Safe(crc, states[i], clock, log, b, a)
    {
      if Survives(crc, states[i], log, []) {
        SurvivesWithMore(crc, states[i], log, a);
      }
    }
  }

  /** Time.Unix() / 3600 of a time in nanoseconds. */
  function Hour(t: int): int {
    var seconds := t / SECOND;
    if seconds >= 0 then seconds / 3600 else -((-seconds) / 3600)
  }

  const HOUR: int := 3600000000000

  /** The moments of an hour. Hour 0 is nearly two hours long, because times before
      the epoch round up to it; seconds round down. */
  predicate InHour(h: int, t: int) {
    if t >= 0 then h * HOUR <= t < (h + 1) * HOUR
    else (h - 1) * HOUR + 1000000000 <= t < h * HOUR + 1000000000
  }

  lemma HourInTimes(t: int, h: int)
    ensures Hour(t) == h <==> InHour(h, t)
  {
  }

  /** A moment is in one hour only. */
  lemma OneHour(t: int)
    ensures forall h :: InHour(h, t) <==> h == Hour(t)
  {
    forall h
      ensures InHour(h, t) <==> h == Hour(t)
    {
      HourInTimes(t, h);
    }
  }

  /** The hour is over by a moment. */
  predicate Over(h: int, cutoff: int) {
    if cutoff >= 0 then (h + 1) * HOUR <= cutoff else h * HOUR + 1000000000 <= cutoff
  }

  lemma OverInHours(h: int, cutoff: int)
    ensures Over(h, cutoff) <==> h + 1 <= Hour(cutoff)
  {
    HourInTimes(cutoff, Hour(cutoff));
  }

  lemma AllOver(cutoff: int)
    ensures forall h :: Over(h, cutoff) <==> h + 1 <= Hour(cutoff)
  {
    forall h
      ensures Over(h, cutoff) <==> h + 1 <= Hour(cutoff)
    {
      OverInHours(h, cutoff);
    }
  }

  /** That is, every moment of it is before that one. */
  lemma OverIsPast(h: int, cutoff: int)
    ensures Over(h, cutoff) <==> forall t :: InHour(h, t) ==> t < cutoff
  {
    var last := if h >= 0 then (h + 1) * HOUR - 1 else h * HOUR + 999999999;
    assert InHour(h, last);
  }

  class Disk {
    const crc: Checksum
    const vol: Volume
    const mem: Memory.Memory
    const retention: int

    var closed: bool
    var seg: Handle
    var segHour: int
    var segSize: nat
    var dirty: bool
    var dirtyHour: int
    var dirtySize: nat

    /** What was acknowledged of each segment, the batch whose leftovers a dirty
        segment may end in, and the latest hour seen. */
    ghost var acked: AckedSegments
    ghost var failed: seq<Span>
    ghost var clock: int

    /** Every acknowledged span, in order. */
    ghost function Log(): seq<Span>
      reads this
    {
      Flat(Spans(acked))
    }

    /** What was acknowledged in one segment. */
    ghost function Filed(h: int): seq<Span>
      reads this
    {
      if h in acked then acked[h].spans else []
    }

    ghost predicate Valid()
      reads this, vol, mem, mem.byDuration
    {
      && Sound()
      && mem.Valid() && mem.closed == closed && mem.retention == retention
      && (!closed && retention <= 0 ==> Remembers(Log()))
    }

    ghost predicate Remembers(log: seq<Span>)
      reads mem, mem.byDuration
    {
      AllValid(log) && mem.View() == InsertedAll(Empty(), log)
    }

    /** The invariant of the files and of what is known about them. */
    ghost predicate Sound()
      reads this, vol
    {
      && Shape(crc, vol.files, acked, failed)
      && (forall h :: h in vol.files ==> h <= clock)
      && SegmentOpen() && DirtyKnown()
    }

    /** An open segment is the newest one, and the next write goes to its end. */
    ghost predicate SegmentOpen()
      reads this, vol
    {
      seg.Handle? ==>
        && !dirty
        && seg.hour == segHour && segHour in vol.files
        && (forall h :: h in vol.files ==> h <= segHour)
        && seg.pos == segSize == |vol.files[segHour].bytes|
    }

    /** Leftovers only in a dirty segment, which is closed, the newest, and
        rid of them by cutting it to the remembered size. */
    ghost predicate DirtyKnown()
      reads this, vol
    {
      && (failed != [] ==> dirty && dirtyHour in vol.files)
      && (dirty ==> seg.NoFile?)
      && (dirty && dirtyHour in vol.files ==>
           && (forall h :: h in vol.files ==> h <= dirtyHour)
           && dirtyHour in acked
           && dirtySize == |acked[dirtyHour].bytes|)
    }

    constructor (crc: Checksum, vol: Volume, mem: Memory.Memory, retention: int, ghost acked: AckedSegments, ghost clock: int)
      requires Shape(crc, vol.files, acked, [])
      requires forall h :: h in vol.files ==> h <= clock
      requires mem.Valid() && !mem.closed && mem.retention == retention
      requires retention <= 0 ==> AllValid(Flat(Spans(acked))) && mem.View() == InsertedAll(Empty(), Flat(Spans(acked)))
      ensures Valid() && !closed && !dirty
      ensures this.crc == crc && this.vol == vol && this.mem == mem && this.retention == retention
      ensures this.acked == acked && this.clock == clock && failed == [] && seg == NoFile
    {
      this.crc, this.vol, this.mem, this.retention := crc, vol, mem, retention;
      closed, dirty, seg := false, false, NoFile;
      segHour, segSize, dirtyHour, dirtySize := -1, 0, 0, 0;
      this.acked, failed, this.clock := acked, [], clock;
    }

    /** At rest, any crash loses nothing acknowledged; and with nothing dirty,
        each segment is exactly what was acknowledged of it. */
    lemma AtRest()
      requires Valid()
      ensures Survives(crc, vol.files, Log(), failed)
      ensures !dirty ==> forall h :: h in vol.files ==>
                vol.files[h] == File(acked[h].bytes, |acked[h].bytes|)
    {
      ShapeSurvives(crc, vol.files, acked, failed);
      if !dirty {
        ExactFiles(crc, vol.files, acked);
      }
    }

    /** Rids the newest segment of what a failed append left in it, or fails and
        leaves that for another time. */
    method Repair() returns (ok: bool)
      requires Sound() && dirty
      modifies this, vol
      ensures Sound() && acked == old(acked) && clock == old(clock) && closed == old(closed)
      ensures seg == old(seg)
      ensures ok ==> !dirty && failed == []
      ensures !ok ==> dirty && failed == old(failed)
      ensures old(vol.faults) <= vol.faults && (!ok ==> old(vol.faults) < vol.faults)
      ensures old(vol.history) <= vol.history
      ensures Covered(crc, vol.history, |old(vol.history)|, clock, Log(), old(failed), [])
    {
      hide Shape, Holds, Safe, Flat;
      if dirtyHour !in vol.files {
        dirty := false;
        return true;
      }
      NewestIs(vol.files.Keys, dirtyHour);
      ghost var before := vol.files;
      AckedInside(crc, before, acked, failed, dirtyHour);
      ok := vol.Truncate(dirtyHour, dirtySize);
      ghost var f := vol.files[dirtyHour];
      ShapeTruncated(crc, before, acked, failed, dirtyHour, f, if ok then [] else failed);
      assert vol.files == before[dirtyHour := f];
      if ok {
        dirty := false;
        failed := [];
      }
      ShapeIsSafe(crc, vol.files, acked, clock, failed, if ok then old(failed) else []);
    }

    /** In the middle of an append: the open segment may go on with part of the
        batch. */
    ghost predicate Appending(spans: seq<Span>)
      reads this, vol
    {
      && Shape(crc, vol.files, acked, spans)
      && (forall h :: h in vol.files ==> h <= clock)
      && seg.Handle? && !dirty && failed == []
      && segHour in vol.files && segHour in acked
      && (forall h :: h in vol.files ==> h <= segHour)
      && segSize == |acked[segHour].bytes|
    }

    /** Undoes a failed append, or gives the segment up as dirty. */
    method Rollback(ghost spans: seq<Span>)
      requires Appending(spans)
      modifies this, vol
      ensures Sound() && acked == old(acked) && clock == old(clock) && closed == old(closed)
      ensures failed == [] || failed == spans
      ensures old(vol.faults) <= vol.faults && (dirty ==> old(vol.faults) < vol.faults)
      ensures old(vol.history) <= vol.history
      ensures Covered(crc, vol.history, |old(vol.history)|, clock, Log(), spans, [])
    {
      hide Shape, Holds, Safe, Flat;
      NewestIs(vol.files.Keys, segHour);
      ghost var before := vol.files;
      AckedInside(crc, before, acked, spans, segHour);
      var ok := vol.Truncate(segHour, segSize);
      ghost var f := vol.files[segHour];
      ghost var left := if ok then [] else spans;
      ShapeTruncated(crc, before, acked, spans, segHour, f, left);
      assert vol.files == before[segHour := f];
      ShapeIsSafe(crc, vol.files, acked, clock, left, if ok then spans else []);
      if ok {
        var sought := vol.Attempt();
        if sought {
          seg := Handle(segHour, segSize);
          return;
        }
      }
      dirty, dirtyHour, dirtySize := true, segHour, segSize;
      failed := left;
      seg := NoFile;
      segHour := -1;
    }

    /** Adds a batch to the log, or leaves the log alone. In between, and after a
        failure that could not be undone, part of the batch may be in the file. */
    method Append(b: Bytes, ghost spans: seq<Span>) returns (ok: bool)
      requires Sound() && seg.Handle? && StoreReady(spans) && b == Records(crc, spans)
      modifies this, vol
      ensures Sound() && clock == old(clock) && closed == old(closed)
      ensures ok ==> Log() == old(Log()) + spans && failed == []
      ensures ok ==> seg == Handle(segHour, segSize) && segHour == old(segHour)
      ensures ok ==> forall h :: Filed(h) == old(Filed(h)) + if h == segHour then spans else []
      ensures !ok ==> acked == old(acked)
      ensures failed == [] || failed == spans
      ensures old(vol.faults) <= vol.faults && (!ok ==> old(vol.faults) < vol.faults)
      ensures old(vol.history) <= vol.history
      ensures Covered(crc, vol.history, |old(vol.history)|, clock, old(Log()), spans, [])
    {
      hide Shape, Safe, Records, Flat, Spans;
      ok := WriteOut(b, spans);
      if !ok {
        Rollback(spans);
        return;
      }
      ok := SyncOut(spans);
      if !ok {
        Rollback(spans);
        return;
      }
      NewestIs(vol.files.Keys, segHour);
      ShapeCommit(crc, vol.files, acked, segHour, spans);
      acked := acked[segHour := Acked(vol.files[segHour].bytes, acked[segHour].spans + spans)];
      segSize := segSize + |b|;
    }

    /** The write of an append. */
    method WriteOut(b: Bytes, ghost spans: seq<Span>) returns (ok: bool)
      requires Sound() && seg.Handle? && StoreReady(spans) && b == Records(crc, spans)
      modifies `seg, vol
      ensures Appending(spans) && seg.Handle? && seg.hour == segHour && seg.pos == |vol.files[segHour].bytes|
      ensures ok ==> vol.files[segHour].bytes == acked[segHour].bytes + b
      ensures old(vol.faults) <= vol.faults && (!ok ==> old(vol.faults) < vol.faults)
      ensures vol.history == old(vol.history) + [vol.files]
      ensures Safe(crc, vol.files, clock, Log(), spans, [])
    {
      hide Shape, Safe, Records, Flat, Spans;
      NewestIs(vol.files.Keys, segHour);
      ghost var before := vol.files;
      AckedInside(crc, before, acked, failed, segHour);
      ok := vol.Write(segHour, seg.pos, b);
      seg := Handle(segHour, |vol.files[segHour].bytes|);
      ghost var n: nat :| n <= |b| && (ok ==> n == |b|) &&
        vol.files == before[segHour := File(before[segHour].bytes + b[..n], before[segHour].synced)];
      ShapeWritten(crc, before, acked, segHour, spans, n);
      assert before[segHour].bytes == acked[segHour].bytes by { ExactFiles(crc, before, acked); }
      assert b[..|b|] == b;
      ShapeIsSafe(crc, vol.files, acked, clock, spans, []);
    }

    /** The sync of an append. */
    method SyncOut(ghost spans: seq<Span>) returns (ok: bool)
      requires Appending(spans)
      modifies vol
      ensures Appending(spans) && vol.files[segHour].bytes == old(vol.files)[segHour].bytes
      ensures ok ==> vol.files[segHour].synced == |vol.files[segHour].bytes|
      ensures old(vol.faults) <= vol.faults && (!ok ==> old(vol.faults) < vol.faults)
      ensures vol.history == old(vol.history) + [vol.files]
      ensures Safe(crc, vol.files, clock, Log(), spans, [])
    {
      hide Shape, Safe, Flat, Spans;
      NewestIs(vol.files.Keys, segHour);
      ghost var before := vol.files;
      AckedInside(crc, before, acked, spans, segHour);
      ok := vol.Sync(segHour);
      ShapeSynced(crc, before, acked, spans, segHour, vol.files[segHour]);
      assert vol.files == before[segHour := vol.files[segHour]];
      ShapeIsSafe(crc, vol.files, acked, clock, spans, []);
    }

    /** Opens the segment of an hour, which is or becomes the newest, at its end. */
    method OpenHour(hour: int, ghost also: seq<Span>) returns (ok: bool)
      requires Sound() && clock == hour && seg.NoFile? && !dirty
      modifies this, vol
      ensures Sound() && clock == hour && closed == old(closed) && failed == []
      ensures Log() == old(Log()) && forall h :: Filed(h) == old(Filed(h))
      ensures ok ==> seg.Handle? && segHour == hour
      ensures old(vol.faults) <= vol.faults && (!ok ==> old(vol.faults) < vol.faults)
      ensures old(vol.history) <= vol.history
      ensures Covered(crc, vol.history, |old(vol.history)|, clock, old(Log()), also, [])
    {
      hide Shape, Safe, Flat, Spans;
      ghost var before := vol.files;
      KeysMatch(crc, before, acked, failed);
      ok := vol.Open(hour);
      if vol.files != before {
        ShapeNewSegment(crc, before, acked, hour);
        acked := acked[hour := Acked([], [])];
      }
      ShapeIsSafe(crc, vol.files, acked, clock, [], also);
      if !ok { return; }
      ok := vol.Attempt();
      if !ok { return; }
      seg := Handle(hour, |vol.files[hour].bytes|);
      segHour, segSize := hour, |vol.files[hour].bytes|;
    }

    /** Gets ready to append at a time: no leftovers, and the segment of its hour open
        at the end. */
    method Roll(now: int) returns (ok: bool)
      requires Sound() && clock <= Hour(now)
      modifies this, vol
      ensures Sound() && clock == Hour(now) && closed == old(closed)
      ensures Log() == old(Log()) && forall h :: Filed(h) == old(Filed(h))
      ensures ok ==> seg.Handle? && InHour(segHour, now)
      ensures failed == [] || failed == old(failed)
      ensures old(vol.faults) <= vol.faults && (!ok ==> old(vol.faults) < vol.faults)
      ensures old(vol.history) <= vol.history
      ensures Covered(crc, vol.history, |old(vol.history)|, clock, old(Log()), old(failed), [])
    {
      hide Shape, Safe, Flat, Spans, Hour, InHour;
      var hour := Hour(now);
      HourInTimes(now, hour);
      clock := hour;
      if seg.Handle? && hour == segHour { return true; }
      if seg.Handle? {
        ok := vol.Attempt();
        if !ok { return; }
        seg := NoFile;
      }
      if dirty {
        ok := Repair();
        if !ok { return; }
      }
      ok := OpenHour(hour, old(failed));
    }

    /** A batch goes into the log, in the segment of the hour it is, and into memory,
        or into neither. Acknowledged or not, whatever moment a crash picks, reopening
        finds the log before the call and then at most whole records of this batch, or
        of the one that had failed before it. */
    method Write(spans: seq<Span>, now: int) returns (r: WriteResult)
      requires Valid() && clock <= Hour(now)
      modifies this, vol, mem, mem.byDuration
      ensures Valid() && closed == old(closed) && mem.byDuration == old(mem.byDuration)
      ensures clock == Hour(now) || (clock == old(clock) && (r == Rejected || r == IsClosed))
      ensures r == Rejected <==> !AllValid(spans)
      ensures r == IsClosed <==> AllValid(spans) && closed
      ensures r == TooLarge ==> !AllEncodable(spans)
      ensures r == Acknowledged ==>
                && AllEncodable(spans) && Log() == old(Log()) + spans && failed == []
                && Agrees(old(mem.View())) && mem.View() == InsertedAll(old(mem.View()), spans)
      ensures r != Acknowledged ==> Log() == old(Log()) && mem.View() == old(mem.View())
      ensures forall h :: Filed(h) == old(Filed(h)) + if r == Acknowledged && InHour(h, now) then spans else []
      ensures failed == [] || failed == old(failed) || failed == spans
      ensures old(vol.faults) <= vol.faults && (r == Failed ==> old(vol.faults) < vol.faults)
      ensures old(vol.history) <= vol.history
      ensures Covered(crc, vol.history, |old(vol.history)|, clock, old(Log()), old(failed), spans)
    {
      hide Shape, Safe, Flat, Spans, Agrees, InsertedAll, Encodable, Records, Hour, InHour, Filed;
      for i := 0 to |spans|
        invariant forall j :: 0 <= j < i ==> spans[j].Valid()
      {
        if !spans[i].Valid() { return Rejected; }
      }
      if closed { return IsClosed; }
      r := Commit(spans, now);
      if r == Acknowledged {
        var stored := mem.Write(spans);
        if retention <= 0 {
          InsertedAllAppends(Empty(), old(Log()), spans);
        }
      }
    }

    /** The part of Write that makes a batch durable. */
    method Commit(spans: seq<Span>, now: int) returns (r: WriteResult)
      requires Sound() && clock <= Hour(now) && AllValid(spans)
      modifies this, vol
      ensures Sound() && closed == old(closed) && clock == Hour(now)
      ensures r == Acknowledged || r == TooLarge || r == Failed
      ensures r == TooLarge ==> !AllEncodable(spans)
      ensures r == Acknowledged ==> AllEncodable(spans) && Log() == old(Log()) + spans && failed == []
      ensures r != Acknowledged ==> Log() == old(Log())
      ensures forall h :: Filed(h) == old(Filed(h)) + if r == Acknowledged && InHour(h, now) then spans else []
      ensures failed == [] || failed == old(failed) || failed == spans
      ensures old(vol.faults) <= vol.faults && (r == Failed ==> old(vol.faults) < vol.faults)
      ensures old(vol.history) <= vol.history
      ensures Covered(crc, vol.history, |old(vol.history)|, clock, old(Log()), old(failed), spans)
    {
      hide Shape, Safe, Flat, Spans, Encodable, Records, Hour, InHour;
      ghost var hour := Hour(now);
      OneHour(now);
      var ok := Roll(now);
      CoveredAlso(crc, vol.history, |old(vol.history)|, hour, old(Log()), old(failed), spans);
      if !ok { return Failed; }
      var buf: Bytes, fits := Encode(spans);
      if !fits { return TooLarge; }
      ghost var rolled := |vol.history|;
      ok := Append(buf, spans);
      CoveredAlso(crc, vol.history, rolled, hour, old(Log()), spans, old(failed));
      r := if ok then Acknowledged else Failed;
    }

    /** Frames every span, or finds one too large for a record. */
    method Encode(spans: seq<Span>) returns (buf: Bytes, fits: bool)
      ensures fits <==> AllEncodable(spans)
      ensures fits ==> buf == Records(crc, spans)
    {
      hide Records, SpanBytes;
      buf, fits := [], true;
      EmptyRecords(crc);
      for i := 0 to |spans|
        invariant AllEncodable(spans[..i]) && buf == Records(crc, spans[..i])
      {
        var payload := Decoder.EncodeSpan([], spans[i]);
        if |payload| > MAX_RECORD {
          return buf, false;
        }
        assert payload == SpanBytes(spans[i]);
        ghost var before := buf;
        buf := buf + LittleEndian(|payload|, 4) + LittleEndian(crc(payload), 4) + payload;
        assert buf == before + Record(crc, spans[i]);
        assert spans[..i + 1] == spans[..i] + [spans[i]];
        RecordsConcat(crc, spans[..i], [spans[i]]);
        OneRecord(crc, spans[i]);
      }
      assert spans[..|spans|] == spans;
    }

    predicate IsOpen(hour: int)
      reads this
    {
      seg.Handle? && hour == segHour
    }

    /** Deletes the segments that ended before an hour, but for the open one, and
        no other. Each segment that stays keeps everything acknowledged. */
    method EvictSegments(cutoff: int)
      requires Sound()
      modifies this, vol
      ensures Sound() && closed == old(closed) && clock == old(clock)
      ensures vol.files.Keys <= old(vol.files).Keys
      ensures forall h :: h in old(vol.files) && h !in vol.files ==> h + 1 <= cutoff
      ensures old(vol.faults) <= vol.faults && seg == old(seg) && segHour == old(segHour)
      ensures vol.faults == old(vol.faults) ==> forall h :: h in vol.files ==> h + 1 > cutoff || IsOpen(h)
      ensures acked == Kept(old(acked), vol.files.Keys)
      ensures old(vol.history) <= vol.history
      ensures forall i :: |old(vol.history)| <= i < |vol.history| ==>
                Survives(crc, vol.history[i], Flat(Spans(Kept(old(acked), vol.history[i].Keys))), old(failed))
    {
      hide Shape, Survives, Flat, Spans;
      KeysMatch(crc, vol.files, acked, failed);
      var todo := vol.files.Keys;
      while todo != {}
        invariant todo <= vol.files.Keys <= old(vol.files).Keys
        invariant Sound() && closed == old(closed) && clock == old(clock)
        invariant failed == [] || failed == old(failed)
        invariant forall h :: h in old(vol.files) && h !in vol.files ==> h + 1 <= cutoff
        invariant old(vol.faults) <= vol.faults && seg == old(seg) && segHour == old(segHour)
        invariant vol.faults == old(vol.faults) ==> forall h :: h in vol.files && h !in todo ==> h + 1 > cutoff || IsOpen(h)
        invariant acked == Kept(old(acked), vol.files.Keys)
        invariant old(vol.history) <= vol.history
        invariant forall i :: |old(vol.history)| <= i < |vol.history| ==>
          Survives(crc, vol.history[i], Flat(Spans(Kept(old(acked), vol.history[i].Keys))), old(failed))
      {
        ghost var some := Sorting.Member(todo);
        var hour :| hour in todo;
        todo := todo - {hour};
        if hour + 1 <= cutoff && !IsOpen(hour) {
          EvictSegment(hour);
          assert acked == Kept(old(acked), vol.files.Keys);
          if failed == [] {
            SurvivesWithMore(crc, vol.files, Log(), old(failed));
          }
        }
      }
    }

    method EvictSegment(hour: int)
      requires Sound() && hour in vol.files && !IsOpen(hour)
      modifies this, vol
      ensures Sound() && closed == old(closed) && clock == old(clock)
      ensures vol.files == old(vol.files) || vol.files == old(vol.files) - {hour}
      ensures old(vol.faults) <= vol.faults && seg == old(seg) && segHour == old(segHour)
      ensures vol.faults == old(vol.faults) ==> hour !in vol.files
      ensures acked == Kept(old(acked), vol.files.Keys)
      ensures failed == [] || failed == old(failed)
      ensures vol.history == old(vol.history) + [vol.files]
      ensures Survives(crc, vol.files, Log(), failed)
    {
      hide Shape, Survives, Flat, Spans;
      KeysMatch(crc, vol.files, acked, failed);
      var removed := vol.Remove(hour);
      if removed {
        ShapeRemove(crc, old(vol.files), acked, failed, hour);
        acked := acked - {hour};
        if hour == Newest(old(vol.files).Keys) {
          failed := [];
        }
      }
      ShapeSurvives(crc, vol.files, acked, failed);
    }

    /** Drops expired traces from memory, and with a retention window also the
        segments written entirely before it: no hour that is not over by then, and if
        nothing fails every one that is, but for the open one. */
    method EvictExpired(now: int) returns (n: nat)
      requires Valid()
      modifies this, vol, mem, mem.byDuration
      ensures Valid() && closed == old(closed) && clock == old(clock) && mem.byDuration == old(mem.byDuration)
      ensures vol.files.Keys <= old(vol.files).Keys
      ensures retention <= 0 ==> vol.files == old(vol.files) && mem.View() == old(mem.View()) && Log() == old(Log())
      ensures forall h :: h in old(vol.files) && h !in vol.files ==> Over(h, now - retention)
      ensures retention > 0 && vol.faults == old(vol.faults) ==>
                forall h :: h in vol.files ==> !Over(h, now - retention) || IsOpen(h)
      ensures old(vol.faults) <= vol.faults && seg == old(seg) && segHour == old(segHour)
      ensures acked == Kept(old(acked), vol.files.Keys)
      ensures old(vol.history) <= vol.history
      ensures forall i :: |old(vol.history)| <= i < |vol.history| ==>
                Survives(crc, vol.history[i], Flat(Spans(Kept(old(acked), vol.history[i].Keys))), old(failed))
    {
      hide Shape, Survives, Flat, Spans, Agrees, Removed, Hour, Over;
      AllOver(now - retention);
      KeysMatch(crc, vol.files, acked, failed);
      n := mem.EvictExpired(now);
      assert Kept(acked, vol.files.Keys) == acked;
      if retention > 0 {
        var listed := vol.Attempt();
        if listed {
          EvictSegments(Hour(now - retention));
        }
      }
    }

    /** Syncs and closes the open segment. Whether that worked or not, nothing is
        lost, and every later call finds the store closed. */
    method Close() returns (ok: bool)
      requires Valid()
      modifies this, vol, mem
      ensures Valid() && closed && Log() == old(Log()) && failed == old(failed) && clock == old(clock)
      ensures ok <==> vol.faults == old(vol.faults)
      ensures old(closed) || old(seg).NoFile? ==> ok
      ensures old(vol.history) <= vol.history
      ensures Covered(crc, vol.history, |old(vol.history)|, clock, Log(), failed, failed)
    {
      hide Shape, Safe, Flat, Spans, Agrees;
      ok := true;
      if closed { return; }
      closed := true;
      if seg.Handle? {
        ghost var before := vol.files;
        NewestIs(before.Keys, segHour);
        AckedInside(crc, before, acked, failed, segHour);
        var synced := vol.Sync(segHour);
        ShapeSynced(crc, before, acked, failed, segHour, vol.files[segHour]);
        assert vol.files == before[segHour := vol.files[segHour]];
        ShapeIsSafe(crc, vol.files, acked, clock, failed, failed);
        var shut := vol.Attempt();
        ok := synced && shut;
        seg := NoFile;
      }
      mem.Close();
    }
  }
}
