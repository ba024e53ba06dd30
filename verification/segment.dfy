/** A segment file as bytes: framed records, and the scan that recovers the
    longest intact prefix. The checksum is a parameter: everything here holds
    for every function from bytes to 32-bit words. */
module Segment {
  import opened Trace
  import opened Codec
  import Decoder

  const RECORD_HEADER := 8
  const MAX_RECORD := 0x100_0000

  type Word = x: int | 0 <= x < 0x1_0000_0000
  type Checksum = Bytes -> Word

  /** Whether Disk.Write takes the span rather than call it oversized. */
  predicate Encodable(s: Span) {
    |SpanBytes(s)| <= MAX_RECORD
  }

  predicate AllEncodable(ss: seq<Span>) {
    forall i :: 0 <= i < |ss| ==> Encodable(ss[i])
  }

  /** A payload behind its length and checksum. */
  function Framed(crc: Checksum, payload: Bytes): Bytes {
    LittleEndian(|payload|, 4) + LittleEndian(crc(payload), 4) + payload
  }

  function Record(crc: Checksum, s: Span): Bytes {
    Framed(crc, SpanBytes(s))
  }

  function Records(crc: Checksum, ss: seq<Span>): Bytes {
    if ss == [] then [] else Record(crc, ss[0]) + Records(crc, ss[1..])
  }

  /** The record at the start of data and its size, or nothing if the header is
      short or absurd, the payload is short, or it does not check out. */
  function ReadRecord(crc: Checksum, data: Bytes): (r: Option<(Span, nat)>)
    ensures r.Some? ==> RECORD_HEADER <= r.value.1 <= |data|
  {
    if |data| < RECORD_HEADER then None
    else
      var size := FromLittleEndian(data[0..4]);
      var sum := FromLittleEndian(data[4..8]);
      if size > MAX_RECORD then None
      else
        var end := RECORD_HEADER + size;
        if |data| < end then None
        else
          var payload := data[RECORD_HEADER..end];
          if crc(payload) != sum then None
          else
            var s :- Decoded(payload);
            Some((s, end))
  }

  /** readRecord, with the payload read by the decoder. */
  method NextRecord(crc: Checksum, data: Bytes) returns (r: Option<(Span, nat)>)
    ensures r == ReadRecord(crc, data)
  {
    hide Decoded;
    if |data| < RECORD_HEADER { return None; }
    var size := FromLittleEndian(data[0..4]);
    var sum := FromLittleEndian(data[4..8]);
    if size > MAX_RECORD { return None; }
    var end := RECORD_HEADER + size;
    if |data| < end { return None; }
    var payload := data[RECORD_HEADER..end];
    if crc(payload) != sum { return None; }
    var s := Decoder.DecodeSpan(payload);
    if s.None? { return None; }
    r := Some((s.value, end));
  }

  datatype Scanned = Scanned(spans: seq<Span>, good: nat, intact: bool)

  /** What intactPrefix finds: spans until one record fails, the length they
      take, and whether that was all of the data. */
  function Scan(crc: Checksum, data: Bytes): (r: Scanned)
    ensures r.good <= |data|
    decreases |data|
  {
    if data == [] then Scanned([], 0, true)
    else
      match ReadRecord(crc, data)
      case None => Scanned([], 0, false)
      case Some((s, n)) =>
        var rest := Scan(crc, data[n..]);
        Scanned([s] + rest.spans, n + rest.good, rest.intact)
  }

  method IntactPrefix(crc: Checksum, data: Bytes) returns (spans: seq<Span>, good: nat, intact: bool)
    ensures Scanned(spans, good, intact) == Scan(crc, data)
  {
    hide ReadRecord;
    spans, good := [], 0;
    while good < |data|
      invariant good <= |data|
      invariant Scan(crc, data) == After(spans, good, Scan(crc, data[good..]))
    {
      var r := NextRecord(crc, data[good..]);
      if r.None? {
        assert Scan(crc, data[good..]) == Scanned([], 0, false);
        assert spans + [] == spans;
        return spans, good, false;
      }
      var (s, n) := r.value;
      assert data[good..][n..] == data[good + n..];
      ghost var rest := Scan(crc, data[good + n..]);
      assert spans + ([s] + rest.spans) == spans + [s] + rest.spans;
      spans := spans + [s];
      good := good + n;
    }
    assert data[good..] == [] && spans + [] == spans;
    intact := true;
  }

  ghost function After(spans: seq<Span>, good: nat, rest: Scanned): Scanned {
    Scanned(spans + rest.spans, good + rest.good, rest.intact)
  }

  lemma FramedLength(crc: Checksum, payload: Bytes)
    ensures |Framed(crc, payload)| == RECORD_HEADER + |payload|
  {
  }

  /** The fields of a frame that is at least whole in its header. */
  lemma FrameHeader(crc: Checksum, payload: Bytes, q: Bytes)
    requires |payload| <= MAX_RECORD
    ensures var data := Framed(crc, payload) + q;
            && |data| >= RECORD_HEADER + |payload|
            && FromLittleEndian(data[0..4]) == |payload|
            && FromLittleEndian(data[4..8]) == crc(payload)
            && data[8..8 + |payload|] == payload
            && data[8 + |payload|..] == q
  {
    var data := Framed(crc, payload) + q;
    assert data[0..4] == LittleEndian(|payload|, 4);
    assert data[4..8] == LittleEndian(crc(payload), 4);
    Pow256Values();
    LittleEndianRoundTrip(|payload|, 4);
    LittleEndianRoundTrip(crc(payload), 4);
  }

  lemma RecordReads(crc: Checksum, s: Span, q: Bytes)
    requires Encodable(s)
    ensures ReadRecord(crc, Record(crc, s) + q) == Some((s, |Record(crc, s)|))
    ensures |Record(crc, s)| >= RECORD_HEADER
  {
    hide SpanBytes, Decoded, Framed, FromLittleEndian;
    FrameHeader(crc, SpanBytes(s), q);
    FramedLength(crc, SpanBytes(s));
    RoundTrip(s);
  }

  /** A record cut anywhere short of its end does not read. */
  lemma TornRecord(crc: Checksum, s: Span, k: nat)
    requires Encodable(s) && k < |Record(crc, s)|
    ensures ReadRecord(crc, Record(crc, s)[..k]).None?
  {
    hide SpanBytes, Decoded, FromLittleEndian;
    var data := Record(crc, s);
    FrameHeader(crc, SpanBytes(s), []);
    FramedLength(crc, SpanBytes(s));
    assert data + [] == data;
    if k >= RECORD_HEADER {
      assert data[..k][0..4] == data[0..4];
    }
  }

  lemma TornScan(crc: Checksum, s: Span, k: nat)
    requires Encodable(s) && k < |Record(crc, s)|
    ensures Scan(crc, Record(crc, s)[..k]) == Scanned([], 0, k == 0)
  {
    hide ReadRecord, Record;
    TornRecord(crc, s, k);
  }

  lemma OneRecord(crc: Checksum, s: Span)
    ensures Records(crc, [s]) == Record(crc, s)
  {
    hide Record;
    assert [s][1..] == [];
  }

  lemma {:induction false} RecordsConcat(crc: Checksum, a: seq<Span>, b: seq<Span>)
    ensures Records(crc, a + b) == Records(crc, a) + Records(crc, b)
  {
    hide Record;
    if a == [] {
      assert a + b == b;
    } else {
      assert (a + b)[1..] == a[1..] + b;
      RecordsConcat(crc, a[1..], b);
    }
  }

  /** What follows a record does not change how it reads. */
  lemma RecordExtends(crc: Checksum, data: Bytes, q: Bytes)
    requires ReadRecord(crc, data).Some?
    ensures ReadRecord(crc, data + q) == ReadRecord(crc, data)
  {
    hide Decoded, FromLittleEndian;
    var more := data + q;
    assert more[0..4] == data[0..4] && more[4..8] == data[4..8];
    var end := ReadRecord(crc, data).value.1;
    assert more[RECORD_HEADER..end] == data[RECORD_HEADER..end];
  }

  /** An intact file followed by any bytes at all: its spans are still found,
      and the scan goes on where they end. */
  lemma {:induction false} ScanThrough(crc: Checksum, data: Bytes, tail: Bytes)
    requires Scan(crc, data).intact
    ensures Scan(crc, data).good == |data|
    ensures Scan(crc, data + tail) == After(Scan(crc, data).spans, |data|, Scan(crc, tail))
    decreases |data|
  {
    hide ReadRecord, After;
    if data == [] {
      assert data + tail == tail;
      AfterNothing(Scan(crc, tail));
    } else {
      RecordExtends(crc, data, tail);
      var (s, n) := ReadRecord(crc, data).value;
      assert (data + tail)[n..] == data[n..] + tail;
      ScanStep(crc, data);
      ScanStep(crc, data + tail);
      ScanThrough(crc, data[n..], tail);
      AfterAfter([s], n, Scan(crc, data[n..]).spans, |data| - n, Scan(crc, tail));
    }
  }

  lemma ScanStep(crc: Checksum, data: Bytes)
    requires data != [] && ReadRecord(crc, data).Some?
    ensures var (s, n) := ReadRecord(crc, data).value;
            Scan(crc, data) == After([s], n, Scan(crc, data[n..]))
  {
  }

  lemma AfterNothing(rest: Scanned)
    ensures After([], 0, rest) == rest
  {
    assert [] + rest.spans == rest.spans;
  }

  lemma AfterAfter(a: seq<Span>, m: nat, b: seq<Span>, n: nat, rest: Scanned)
    ensures After(a, m, After(b, n, rest)) == After(a + b, m + n, rest)
  {
    assert a + (b + rest.spans) == a + b + rest.spans;
  }

  lemma {:induction false} ScanOfRecords(crc: Checksum, ss: seq<Span>)
    requires AllEncodable(ss)
    ensures Scan(crc, Records(crc, ss)) == Scanned(ss, |Records(crc, ss)|, true)
  {
    hide Record, ReadRecord, Encodable;
    if ss != [] {
      var rest := Records(crc, ss[1..]);
      RecordReads(crc, ss[0], rest);
      assert Records(crc, ss)[|Record(crc, ss[0])|..] == rest;
      ScanOfRecords(crc, ss[1..]);
      assert [ss[0]] + ss[1..] == ss;
    }
  }

  /** Good records followed by any bytes at all: the spans are still found, and
      the scan goes on where they end. */
  lemma ScanKeepsRecords(crc: Checksum, ss: seq<Span>, tail: Bytes)
    requires AllEncodable(ss)
    ensures Scan(crc, Records(crc, ss) + tail) == After(ss, |Records(crc, ss)|, Scan(crc, tail))
  {
    hide Scan, Records, Encodable;
    ScanOfRecords(crc, ss);
    ScanThrough(crc, Records(crc, ss), tail);
  }

  /** How many whole records the first k bytes hold. */
  function Whole(crc: Checksum, ss: seq<Span>, k: nat): (j: nat)
    ensures j <= |ss|
  {
    if ss == [] || k < |Record(crc, ss[0])| then 0
    else 1 + Whole(crc, ss[1..], k - |Record(crc, ss[0])|)
  }

  lemma {:induction false} WholeIsExact(crc: Checksum, ss: seq<Span>, k: nat)
    ensures var j := Whole(crc, ss, k);
            && |Records(crc, ss[..j])| <= k
            && (j < |ss| ==> k < |Records(crc, ss[..j])| + |Record(crc, ss[j])|)
  {
    hide Record;
    var j := Whole(crc, ss, k);
    if j > 0 {
      WholeIsExact(crc, ss[1..], k - |Record(crc, ss[0])|);
      assert ss[..j][1..] == ss[1..][..j - 1];
    }
  }

  /** Records cut at byte k are the whole records before the cut, then a strict
      prefix of the next one. */
  lemma CutShape(crc: Checksum, ss: seq<Span>, k: nat)
    requires k <= |Records(crc, ss)|
    ensures var j := Whole(crc, ss, k);
            var done := Records(crc, ss[..j]);
            && |done| <= k
            && (j == |ss| ==> Records(crc, ss)[..k] == done)
            && (j < |ss| ==>
                 && k - |done| < |Record(crc, ss[j])|
                 && Records(crc, ss)[..k] == done + Record(crc, ss[j])[..k - |done|])
  {
    hide Record;
    var j := Whole(crc, ss, k);
    WholeIsExact(crc, ss, k);
    assert ss == ss[..j] + ss[j..];
    RecordsConcat(crc, ss[..j], ss[j..]);
  }

  /** The scan of a file cut at byte k finds exactly the records that lie whole
      before the cut, and knows exactly whether the cut fell between records. */
  lemma CutRecords(crc: Checksum, ss: seq<Span>, k: nat)
    requires AllEncodable(ss) && k <= |Records(crc, ss)|
    ensures var j := Whole(crc, ss, k);
            && Scan(crc, Records(crc, ss)[..k]) ==
               Scanned(ss[..j], |Records(crc, ss[..j])|, |Records(crc, ss[..j])| == k)
            && |Records(crc, ss[..j])| <= k
            && (j < |ss| ==> k < |Records(crc, ss[..j + 1])|)
  {
    hide Record, Records, Scan, Whole, Encodable;
    var j := Whole(crc, ss, k);
    var done := Records(crc, ss[..j]);
    CutShape(crc, ss, k);
    if j == |ss| {
      ScanOfRecords(crc, ss[..j]);
    } else {
      TornScan(crc, ss[j], k - |done|);
      ScanKeepsRecords(crc, ss[..j], Record(crc, ss[j])[..k - |done|]);
      assert ss[..j] + [] == ss[..j];
      assert ss[..j + 1] == ss[..j] + [ss[j]];
      RecordsConcat(crc, ss[..j], [ss[j]]);
      OneRecord(crc, ss[j]);
    }
  }

  lemma RecordPrefix(crc: Checksum, data: Bytes, m: nat)
    requires ReadRecord(crc, data).Some? && ReadRecord(crc, data).value.1 <= m <= |data|
    ensures ReadRecord(crc, data[..m]) == ReadRecord(crc, data)
  {
    hide Decoded, FromLittleEndian;
    var less := data[..m];
    assert less[0..4] == data[0..4] && less[4..8] == data[4..8];
    var end := ReadRecord(crc, data).value.1;
    assert less[RECORD_HEADER..end] == data[RECORD_HEADER..end];
  }

  /** Cutting a file to its intact prefix leaves an intact file with the same
      spans. */
  lemma {:induction false} IntactPrefixIsIntact(crc: Checksum, data: Bytes)
    ensures var r := Scan(crc, data);
            Scan(crc, data[..r.good]) == Scanned(r.spans, r.good, true)
    decreases |data|
  {
    hide ReadRecord, After;
    var r := Scan(crc, data);
    if data != [] && ReadRecord(crc, data).Some? {
      var (s, n) := ReadRecord(crc, data).value;
      RecordPrefix(crc, data, r.good);
      IntactPrefixIsIntact(crc, data[n..]);
      assert data[..r.good][n..] == data[n..][..r.good - n];
    } else {
      assert data[..0] == [];
    }
  }

  /** However much of the bad tail is cut off, the scan finds the same. */
  lemma {:induction false} TailDoesNotMatter(crc: Checksum, data: Bytes, m: nat)
    requires Scan(crc, data).good <= m <= |data|
    ensures Scan(crc, data[..m]).spans == Scan(crc, data).spans && Scan(crc, data[..m]).good == Scan(crc, data).good
    decreases |data|
  {
    hide ReadRecord;
    var less := data[..m];
    if data == [] {
      assert less == data;
    } else if ReadRecord(crc, data).Some? {
      var (s, n) := ReadRecord(crc, data).value;
      RecordPrefix(crc, data, m);
      TailDoesNotMatter(crc, data[n..], m - n);
      assert less[n..] == data[n..][..m - n];
    } else if less != [] && ReadRecord(crc, less).Some? {
      assert data == less + data[m..];
      RecordExtends(crc, less, data[m..]);
      assert false;
    }
  }
}
