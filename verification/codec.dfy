/** The binary form of a span on disk: what encodeSpan writes, what decodeSpan
    accepts, and why the two fit together.

    Every reader here either fails or returns a value and the bytes it left.
    Two facts about each reader carry the whole module: it reads back what the
    matching writer wrote, and it is not affected by bytes beyond the ones it
    consumed (the "Extends" lemmas). The second one makes the set of accepted
    byte strings prefix-free. */
module Codec {
  import opened Trace

  type Bytes = seq<Byte>

  const CODEC_VERSION: Byte := 1

  // ---------------------------------------------------------------- numbers

  /** binary.AppendUvarint: seven bits a byte, low bits first. */
  function UvarintBytes(v: nat): Bytes {
    if v < 128 then [v] else [v % 128 + 128] + UvarintBytes(v / 128)
  }

  /** How large a value may still be once i bytes of a varint are read:
      2^64 divided by 128^i. */
  function Room(i: nat): (r: nat)
    requires i <= 9
    ensures r >= 2
    decreases 9 - i
  {
    if i == 9 then 2 else 128 * Room(i + 1)
  }

  lemma RoomIsUint64()
    ensures Room(0) == UINT64
  {
    assert Room(8) == 256;
    assert Room(6) == 128 * 128 * 256;
    assert Room(4) == 128 * 128 * 128 * 128 * 256;
    assert Room(2) == 128 * 128 * 128 * 128 * 128 * 128 * 256;
  }

  /** binary.Uvarint with i bytes already read. An eleventh byte, or a tenth
      above 1, overflows and fails. */
  function ReadUvarintAt(b: Bytes, i: nat): (r: Option<(nat, Bytes)>)
    requires i <= 10
    ensures r.Some? ==> i <= 9 && r.value.0 < Room(i)
    ensures r.Some? ==> |r.value.1| < |b|
    decreases 10 - i
  {
    if i == 10 || b == [] then None
    else if b[0] < 128 then
      if i == 9 && b[0] > 1 then None
      else Some((b[0], b[1..]))
    else
      var (high, rest) :- ReadUvarintAt(b[1..], i + 1);
      Some((b[0] - 128 + 128 * high, rest))
  }

  function ReadUvarint(b: Bytes): (r: Option<(Uint64, Bytes)>)
    ensures r.Some? ==> |r.value.1| < |b|
  {
    RoomIsUint64();
    var (v, rest) :- ReadUvarintAt(b, 0);
    Some((v, rest))
  }

  lemma {:induction false} UvarintRoundTripAt(v: nat, i: nat, q: Bytes)
    requires i <= 9 && v < Room(i)
    ensures ReadUvarintAt(UvarintBytes(v) + q, i) == Some((v, q))
    decreases v
  {
    var b := UvarintBytes(v) + q;
    if v < 128 {
      assert b[1..] == q;
    } else {
      assert b[1..] == UvarintBytes(v / 128) + q;
      UvarintRoundTripAt(v / 128, i + 1, q);
    }
  }

  lemma UvarintRoundTrip(v: Uint64, q: Bytes)
    ensures ReadUvarint(UvarintBytes(v) + q) == Some((v, q))
  {
    RoomIsUint64();
    UvarintRoundTripAt(v, 0, q);
  }

  lemma {:induction false} UvarintExtendsAt(b: Bytes, i: nat, q: Bytes)
    requires i <= 10 && ReadUvarintAt(b, i).Some?
    ensures var (v, rest) := ReadUvarintAt(b, i).value;
            ReadUvarintAt(b + q, i) == Some((v, rest + q))
    decreases 10 - i
  {
    assert (b + q)[1..] == b[1..] + q;
    if b[0] >= 128 {
      UvarintExtendsAt(b[1..], i + 1, q);
    }
  }

  /** binary.AppendVarint folds the sign into the low bit. */
  function ZigZag(x: Int64): Uint64 {
    if x >= 0 then 2 * x else -2 * x - 1
  }

  function UnZigZag(u: Uint64): Int64 {
    if u % 2 == 0 then u / 2 else -(u / 2) - 1
  }

  function ReadVarint(b: Bytes): (r: Option<(Int64, Bytes)>)
    ensures r.Some? ==> |r.value.1| < |b|
  {
    var (u, rest) :- ReadUvarint(b);
    Some((UnZigZag(u), rest))
  }

  lemma VarintExtends(b: Bytes, q: Bytes)
    requires ReadVarint(b).Some?
    ensures ReadVarint(b + q) == Some((ReadVarint(b).value.0, ReadVarint(b).value.1 + q))
  {
    UvarintExtendsAt(b, 0, q);
  }

  lemma VarintRoundTrip(x: Int64, q: Bytes)
    ensures ReadVarint(UvarintBytes(ZigZag(x)) + q) == Some((x, q))
  {
    UvarintRoundTrip(ZigZag(x), q);
  }

  /** The n low bytes of v, least significant first. */
  function LittleEndian(v: nat, n: nat): (b: Bytes)
    ensures |b| == n
  {
    if n == 0 then [] else [v % 256] + LittleEndian(v / 256, n - 1)
  }

  function FromLittleEndian(b: Bytes): (v: nat)
    ensures v < Pow256(|b|)
  {
    if b == [] then 0 else b[0] + 256 * FromLittleEndian(b[1..])
  }

  lemma {:induction false} LittleEndianRoundTrip(v: nat, n: nat)
    requires v < Pow256(n)
    ensures FromLittleEndian(LittleEndian(v, n)) == v
  {
    if n > 0 {
      assert LittleEndian(v, n)[1..] == LittleEndian(v / 256, n - 1);
      LittleEndianRoundTrip(v / 256, n - 1);
    }
  }

  lemma Pow256Values()
    ensures Pow256(4) == 0x1_0000_0000
    ensures Pow256(8) == UINT64
  {
    assert Pow256(2) == 0x1_0000;
    assert Pow256(6) == 0x1_0000_0000_0000;
  }

  // ------------------------------------------------------ bytes and strings

  function ReadBytes(n: nat, b: Bytes): (r: Option<(Bytes, Bytes)>)
    ensures r.Some? ==> |r.value.0| == n && r.value.0 + r.value.1 == b
  {
    if |b| < n then None else Some((b[..n], b[n..]))
  }

  function ReadByte(b: Bytes): (r: Option<(Byte, Bytes)>)
    ensures r.Some? ==> |r.value.1| < |b|
  {
    if b == [] then None else Some((b[0], b[1..]))
  }

  function TextBytes(s: Text): Bytes {
    UvarintBytes(|s|) + s
  }

  /** A length beyond what is left fails before anything is taken. The second
      bound only restates that a Go buffer is shorter than 2^63 bytes. */
  function ReadText(b: Bytes): (r: Option<(Text, Bytes)>)
    ensures r.Some? ==> |r.value.1| < |b|
  {
    var (n, rest) :- ReadUvarint(b);
    if n > |rest| || n >= INT63 then None else Some((rest[..n], rest[n..]))
  }

  lemma TextRoundTrip(s: Text, q: Bytes)
    ensures ReadText(TextBytes(s) + q) == Some((s, q))
  {
    assert TextBytes(s) + q == UvarintBytes(|s|) + (s + q);
    UvarintRoundTrip(|s|, s + q);
    assert (s + q)[..|s|] == s && (s + q)[|s|..] == q;
  }

  lemma TextExtends(b: Bytes, q: Bytes)
    requires ReadText(b).Some?
    ensures ReadText(b + q) == Some((ReadText(b).value.0, ReadText(b).value.1 + q))
  {
    UvarintExtendsAt(b, 0, q);
    var (n, rest) := ReadUvarint(b).value;
    assert (rest + q)[..n] == rest[..n] && (rest + q)[n..] == rest[n..] + q;
  }

  lemma BytesExtend(n: nat, b: Bytes, q: Bytes)
    requires n <= |b|
    ensures ReadBytes(n, b + q) == Some((b[..n], b[n..] + q))
  {
    assert (b + q)[..n] == b[..n] && (b + q)[n..] == b[n..] + q;
  }

  // ------------------------------------------------------------- attributes

  function KindByte(v: Value): Byte {
    match v
    case Invalid => 0
    case StringValue(_) => 1
    case BoolValue(_) => 2
    case IntValue(_) => 3
    case FloatValue(_) => 4
  }

  function PayloadBytes(v: Value): Bytes {
    match v
    case Invalid => []
    case StringValue(s) => TextBytes(s)
    case BoolValue(flag) => [if flag then 1 else 0]
    case IntValue(x) => UvarintBytes(ZigZag(x))
    case FloatValue(bits) => LittleEndian(bits, 8)
  }

  function KeyValueBytes(kv: KeyValue): Bytes {
    TextBytes(kv.key) + ([KindByte(kv.value)] + PayloadBytes(kv.value))
  }

  function KeyValuesBytes(kvs: seq<KeyValue>): Bytes {
    if kvs == [] then [] else KeyValueBytes(kvs[0]) + KeyValuesBytes(kvs[1..])
  }

  function AttributesBytes(kvs: Attributes): Bytes {
    UvarintBytes(|kvs|) + KeyValuesBytes(kvs)
  }

  /** A bool is true only for the byte 1, and an unknown kind fails. */
  function ReadPayload(kind: Byte, b: Bytes): Option<(Value, Bytes)> {
    match kind
    case 0 => Some((Invalid, b))
    case 1 =>
      var (s, rest) :- ReadText(b);
      Some((StringValue(s), rest))
    case 2 =>
      var (x, rest) :- ReadByte(b);
      Some((BoolValue(x == 1), rest))
    case 3 =>
      var (x, rest) :- ReadVarint(b);
      Some((IntValue(x), rest))
    case 4 =>
      var (bits, rest) :- ReadBytes(8, b);
      Pow256Values();
      Some((FloatValue(FromLittleEndian(bits)), rest))
    case _ => None
  }

  function ReadKeyValue(b: Bytes): Option<(KeyValue, Bytes)> {
    var (key, afterKey) :- ReadText(b);
    var (kind, afterKind) :- ReadByte(afterKey);
    var (value, rest) :- ReadPayload(kind, afterKind);
    Some((KeyValue(key, value), rest))
  }

  function ReadKeyValues(n: nat, b: Bytes): (r: Option<(seq<KeyValue>, Bytes)>)
    ensures r.Some? ==> |r.value.0| == n
  {
    if n == 0 then Some(([], b))
    else
      var (kv, afterFirst) :- ReadKeyValue(b);
      var (kvs, rest) :- ReadKeyValues(n - 1, afterFirst);
      Some(([kv] + kvs, rest))
  }

  /** The guard on the count: every attribute takes at least two bytes. */
  function ReadAttributes(b: Bytes): Option<(Attributes, Bytes)> {
    var (n, rest) :- ReadUvarint(b);
    if n == 0 then Some(([], rest))
    else if n > |rest| / 2 || n >= INT63 then None
    else ReadKeyValues(n, rest)
  }

  lemma PayloadRoundTrip(v: Value, q: Bytes)
    ensures ReadPayload(KindByte(v), PayloadBytes(v) + q) == Some((v, q))
  {
    match v
    case Invalid => assert PayloadBytes(v) + q == q;
    case StringValue(s) => TextRoundTrip(s, q);
    case BoolValue(_) => assert (PayloadBytes(v) + q)[1..] == q;
    case IntValue(x) => VarintRoundTrip(x, q);
    case FloatValue(bits) =>
      Pow256Values();
      LittleEndianRoundTrip(bits, 8);
      BytesExtend(8, LittleEndian(bits, 8), q);
      assert LittleEndian(bits, 8)[..8] == LittleEndian(bits, 8);
  }

  lemma PayloadExtends(kind: Byte, b: Bytes, q: Bytes)
    requires ReadPayload(kind, b).Some?
    ensures ReadPayload(kind, b + q) ==
            Some((ReadPayload(kind, b).value.0, ReadPayload(kind, b).value.1 + q))
  {
    match kind
    case 0 =>
    case 1 => TextExtends(b, q);
    case 2 => assert (b + q)[1..] == b[1..] + q;
    case 3 => UvarintExtendsAt(b, 0, q);
    case _ => BytesExtend(8, b, q);
  }

  lemma TextIsSomething(s: Text)
    ensures |TextBytes(s)| >= 1
  {
  }

  lemma KeyValueRoundTrip(kv: KeyValue, q: Bytes)
    ensures ReadKeyValue(KeyValueBytes(kv) + q) == Some((kv, q))
    ensures |KeyValueBytes(kv)| >= 2
  {
    hide TextBytes, ReadText, PayloadBytes, ReadPayload, KindByte;
    TextIsSomething(kv.key);
    var tail := [KindByte(kv.value)] + (PayloadBytes(kv.value) + q);
    assert KeyValueBytes(kv) + q == TextBytes(kv.key) + tail;
    TextRoundTrip(kv.key, tail);
    assert tail[1..] == PayloadBytes(kv.value) + q;
    PayloadRoundTrip(kv.value, q);
  }

  lemma KeyValueExtends(b: Bytes, q: Bytes)
    requires ReadKeyValue(b).Some?
    ensures ReadKeyValue(b + q) == Some((ReadKeyValue(b).value.0, ReadKeyValue(b).value.1 + q))
  {
    hide ReadText, ReadPayload;
    TextExtends(b, q);
    var afterKey := ReadText(b).value.1;
    assert (afterKey + q)[1..] == afterKey[1..] + q;
    PayloadExtends(afterKey[0], afterKey[1..], q);
  }

  lemma {:induction false} KeyValuesRoundTrip(kvs: seq<KeyValue>, q: Bytes)
    ensures ReadKeyValues(|kvs|, KeyValuesBytes(kvs) + q) == Some((kvs, q))
    ensures |KeyValuesBytes(kvs)| >= 2 * |kvs|
  {
    if kvs == [] {
      assert KeyValuesBytes(kvs) + q == q;
    } else {
      var tail := KeyValuesBytes(kvs[1..]) + q;
      assert KeyValuesBytes(kvs) + q == KeyValueBytes(kvs[0]) + tail;
      KeyValueRoundTrip(kvs[0], tail);
      KeyValuesRoundTrip(kvs[1..], q);
      assert [kvs[0]] + kvs[1..] == kvs;
    }
  }

  lemma {:induction false} KeyValuesExtend(n: nat, b: Bytes, q: Bytes)
    requires ReadKeyValues(n, b).Some?
    ensures ReadKeyValues(n, b + q) ==
            Some((ReadKeyValues(n, b).value.0, ReadKeyValues(n, b).value.1 + q))
  {
    hide ReadKeyValue;
    if n > 0 {
      KeyValueExtends(b, q);
      KeyValuesExtend(n - 1, ReadKeyValue(b).value.1, q);
    }
  }

  /** A genuine attribute list is read back, so the guard on the count never
      turns one away. */
  lemma AttributesRoundTrip(kvs: Attributes, q: Bytes)
    ensures ReadAttributes(AttributesBytes(kvs) + q) == Some((kvs, q))
  {
    var tail := KeyValuesBytes(kvs) + q;
    assert AttributesBytes(kvs) + q == UvarintBytes(|kvs|) + tail;
    UvarintRoundTrip(|kvs|, tail);
    KeyValuesRoundTrip(kvs, q);
    if kvs == [] {
      assert tail == q;
    }
  }

  lemma AttributesExtend(b: Bytes, q: Bytes)
    requires ReadAttributes(b).Some?
    ensures ReadAttributes(b + q) == Some((ReadAttributes(b).value.0, ReadAttributes(b).value.1 + q))
  {
    UvarintExtendsAt(b, 0, q);
    var (n, rest) := ReadUvarint(b).value;
    if n > 0 {
      KeyValuesExtend(n, rest, q);
    }
  }

  // ------------------------------------------------------------------ spans

  /** The identifiers that open a record, after the version byte. */
  datatype Ids = Ids(traceID: TraceID, spanID: SpanID, parentID: SpanID)

  /** The fields between the identifiers and the attributes. */
  datatype Facts = Facts(name: Text, kind: Byte, service: Text, start: Int64, end: Int64, code: Byte, message: Text)

  function FactsBytes(s: Span): Bytes {
    TextBytes(s.name) + [s.kind] + TextBytes(s.service)
    + UvarintBytes(ZigZag(s.start)) + UvarintBytes(ZigZag(s.end))
    + [s.code] + TextBytes(s.message)
  }

  function IdsBytes(s: Span): Bytes {
    [CODEC_VERSION] + s.traceID + s.spanID + s.parentID
  }

  /** What encodeSpan appends for s. */
  function SpanBytes(s: Span): Bytes {
    IdsBytes(s) + FactsBytes(s) + AttributesBytes(s.attributes) + AttributesBytes(s.resource)
  }

  function ReadIds(b: Bytes): Option<(Ids, Bytes)> {
    var (version, b1) :- ReadByte(b);
    if version != CODEC_VERSION then None
    else
      var (traceID, b2) :- ReadBytes(16, b1);
      var (spanID, b3) :- ReadBytes(8, b2);
      var (parentID, rest) :- ReadBytes(8, b3);
      Some((Ids(traceID, spanID, parentID), rest))
  }

  function ReadFacts(b: Bytes): Option<(Facts, Bytes)> {
    var (name, b1) :- ReadText(b);
    var (kind, b2) :- ReadByte(b1);
    var (service, b3) :- ReadText(b2);
    var (start, b4) :- ReadVarint(b3);
    var (end, b5) :- ReadVarint(b4);
    var (code, b6) :- ReadByte(b5);
    var (message, rest) :- ReadText(b6);
    Some((Facts(name, kind, service, start, end, code, message), rest))
  }

  function ReadSpan(b: Bytes): Option<(Span, Bytes)> {
    var (ids, b1) :- ReadIds(b);
    var (facts, b2) :- ReadFacts(b1);
    var (attributes, b3) :- ReadAttributes(b2);
    var (resource, rest) :- ReadAttributes(b3);
    Some((Span(ids.traceID, ids.spanID, ids.parentID, facts.name, facts.kind, facts.service,
               facts.start, facts.end, facts.code, facts.message, attributes, resource), rest))
  }

  /** The span decodeSpan returns for p, if it accepts p at all. */
  function Decoded(p: Bytes): Option<Span> {
    var (s, rest) :- ReadSpan(p);
    if rest == [] then Some(s) else None
  }

  lemma IdsRoundTrip(s: Span, q: Bytes)
    ensures ReadIds(IdsBytes(s) + q) == Some((Ids(s.traceID, s.spanID, s.parentID), q))
  {
    var b := IdsBytes(s) + q;
    assert b[1..] == s.traceID + (s.spanID + (s.parentID + q));
    assert b[1..][..16] == s.traceID && b[1..][16..] == s.spanID + (s.parentID + q);
    assert b[1..][16..][..8] == s.spanID && b[1..][16..][8..] == s.parentID + q;
    assert (s.parentID + q)[..8] == s.parentID && (s.parentID + q)[8..] == q;
  }

  lemma FactsRoundTrip(s: Span, q: Bytes)
    ensures ReadFacts(FactsBytes(s) + q) ==
            Some((Facts(s.name, s.kind, s.service, s.start, s.end, s.code, s.message), q))
  {
    hide TextBytes, UvarintBytes, ReadText, ReadVarint;
    var q6 := TextBytes(s.message) + q;
    var q5 := [s.code] + q6;
    var q4 := UvarintBytes(ZigZag(s.end)) + q5;
    var q3 := UvarintBytes(ZigZag(s.start)) + q4;
    var q2 := TextBytes(s.service) + q3;
    var q1 := [s.kind] + q2;
    assert FactsBytes(s) + q == TextBytes(s.name) + q1;
    TextRoundTrip(s.name, q1);
    assert q1[1..] == q2 && q5[1..] == q6;
    TextRoundTrip(s.service, q3);
    VarintRoundTrip(s.start, q4);
    VarintRoundTrip(s.end, q5);
    TextRoundTrip(s.message, q);
  }

  /** Reading starts with exactly the span that was written. */
  lemma SpanRoundTrip(s: Span, q: Bytes)
    ensures ReadSpan(SpanBytes(s) + q) == Some((s, q))
  {
    hide IdsBytes, FactsBytes, AttributesBytes, ReadIds, ReadFacts, ReadAttributes;
    var q3 := AttributesBytes(s.resource) + q;
    var q2 := AttributesBytes(s.attributes) + q3;
    var q1 := FactsBytes(s) + q2;
    assert SpanBytes(s) + q == IdsBytes(s) + q1;
    IdsRoundTrip(s, q1);
    FactsRoundTrip(s, q2);
    AttributesRoundTrip(s.attributes, q3);
    AttributesRoundTrip(s.resource, q);
  }

  lemma IdsExtend(b: Bytes, q: Bytes)
    requires ReadIds(b).Some?
    ensures ReadIds(b + q) == Some((ReadIds(b).value.0, ReadIds(b).value.1 + q))
  {
    var b1 := b[1..];
    assert (b + q)[1..] == b1 + q;
    BytesExtend(16, b1, q);
    BytesExtend(8, b1[16..], q);
    BytesExtend(8, b1[16..][8..], q);
  }

  lemma FactsExtend(b: Bytes, q: Bytes)
    requires ReadFacts(b).Some?
    ensures ReadFacts(b + q) == Some((ReadFacts(b).value.0, ReadFacts(b).value.1 + q))
  {
    hide ReadText, ReadVarint;
    TextExtends(b, q);
    var b1 := ReadText(b).value.1;
    assert (b1 + q)[1..] == b1[1..] + q;
    TextExtends(b1[1..], q);
    var b3 := ReadText(b1[1..]).value.1;
    VarintExtends(b3, q);
    var b4 := ReadVarint(b3).value.1;
    VarintExtends(b4, q);
    var b5 := ReadVarint(b4).value.1;
    assert (b5 + q)[1..] == b5[1..] + q;
    TextExtends(b5[1..], q);
  }

  /** What follows a span that reads well is left alone. */
  lemma SpanExtends(b: Bytes, q: Bytes)
    requires ReadSpan(b).Some?
    ensures ReadSpan(b + q) == Some((ReadSpan(b).value.0, ReadSpan(b).value.1 + q))
  {
    IdsExtend(b, q);
    var b1 := ReadIds(b).value.1;
    FactsExtend(b1, q);
    var b2 := ReadFacts(b1).value.1;
    AttributesExtend(b2, q);
    AttributesExtend(ReadAttributes(b2).value.1, q);
  }

  /** decodeSpan(encodeSpan(s)) is s, for every span. */
  lemma RoundTrip(s: Span)
    ensures Decoded(SpanBytes(s)) == Some(s)
  {
    SpanRoundTrip(s, []);
    assert SpanBytes(s) + [] == SpanBytes(s);
  }

  lemma EncodingIsInjective(s: Span, t: Span)
    requires SpanBytes(s) == SpanBytes(t)
    ensures s == t
  {
    RoundTrip(s);
    RoundTrip(t);
  }

  /** No accepted byte string is a strict prefix of another accepted one,
      whether or not encodeSpan could have written either. */
  lemma AcceptedIsPrefixFree(p: Bytes, k: nat)
    requires Decoded(p).Some? && k < |p|
    ensures Decoded(p[..k]).None?
  {
    assert p[..k] + p[k..] == p;
    if Decoded(p[..k]).Some? {
      SpanExtends(p[..k], p[k..]);
      assert false;
    }
  }

  /** Every truncation of a written span is rejected. */
  lemma TruncationIsRejected(s: Span, k: nat)
    requires k < |SpanBytes(s)|
    ensures Decoded(SpanBytes(s)[..k]).None?
  {
    RoundTrip(s);
    AcceptedIsPrefixFree(SpanBytes(s), k);
  }
}
