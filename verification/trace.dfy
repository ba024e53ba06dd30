/** Spans, identifiers and attribute values, as the rest of the system shares them.

    A Go string is a byte sequence whose length fits in an int. An identifier is
    a fixed-width byte sequence, and the all-zero one means "absent". A time is a
    number of nanoseconds since the Unix epoch that fits in an int64. */
module Trace {

  const INT63: int := 0x8000_0000_0000_0000
  const UINT64: int := 0x1_0000_0000_0000_0000

  type Byte = x: int | 0 <= x < 256
  type Int64 = x: int | -INT63 <= x < INT63
  type Uint64 = x: int | 0 <= x < UINT64
  type Text = s: seq<Byte> | |s| < INT63 witness []
  type TraceID = s: seq<Byte> | |s| == 16 witness [0, 0, 0, 0, 0, 0, 0, 0, 0, 0, 0, 0, 0, 0, 0, 0]
  type SpanID = s: seq<Byte> | |s| == 8 witness [0, 0, 0, 0, 0, 0, 0, 0]

  datatype Option<+T> = None | Some(value: T) {
    predicate IsFailure() { None? }

    function PropagateFailure<U>(): Option<U>
      requires None?
    {
      None
    }

    function Extract(): T
      requires Some?
    {
      value
    }
  }

  /** One attribute value. A float is held as its 64 bits. */
  datatype Value =
    | Invalid
    | StringValue(str: Text)
    | BoolValue(flag: bool)
    | IntValue(num: Int64)
    | FloatValue(bits: Uint64)

  datatype KeyValue = KeyValue(key: Text, value: Value)

  type Attributes = kvs: seq<KeyValue> | |kvs| < INT63 witness []

  function Pow256(n: nat): nat {
    if n == 0 then 1 else 256 * Pow256(n - 1)
  }

  const STATUS_ERROR: Byte := 2

  datatype Span = Span(
    traceID: TraceID,
    spanID: SpanID,
    parentID: SpanID,
    name: Text,
    kind: Byte,
    service: Text,
    start: Int64,
    end: Int64,
    code: Byte,
    message: Text,
    attributes: Attributes,
    resource: Attributes)
  {
    /** The identifier of the parent is the zero value on a root span. */
    predicate IsRoot() {
      parentID == ZERO_SPAN
    }

    predicate Failed() {
      code == STATUS_ERROR
    }

    function Duration(): int {
      end - start
    }

    /** What Span.Validate demands of a span whose times are set. */
    predicate Valid() {
      && traceID != ZERO_TRACE
      && spanID != ZERO_SPAN
      && name != []
      && service != []
      && parentID != spanID
      && start <= end
    }
  }

  const ZERO_SPAN: SpanID := [0, 0, 0, 0, 0, 0, 0, 0]
  const ZERO_TRACE: TraceID := [0, 0, 0, 0, 0, 0, 0, 0, 0, 0, 0, 0, 0, 0, 0, 0]

  predicate AllValid(spans: seq<Span>) {
    forall i :: 0 <= i < |spans| ==> spans[i].Valid()
  }
}
