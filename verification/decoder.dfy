/** encodeSpan and decodeSpan as the program runs them: an encoder that appends
    to a buffer, and a decoder that consumes its buffer and remembers its first
    failure. Each method is tied to the function of module Codec it computes. */
module Decoder {
  import opened Trace
  import opened Codec

  method AppendText(b: Bytes, s: Text) returns (r: Bytes)
    ensures r == b + TextBytes(s)
  {
    r := b + UvarintBytes(|s|);
    r := r + s;
  }

  method AppendKeyValue(b: Bytes, kv: KeyValue) returns (r: Bytes)
    ensures r == b + KeyValueBytes(kv)
  {
    hide TextBytes, UvarintBytes, LittleEndian, ZigZag;
    r := AppendText(b, kv.key);
    r := r + [KindByte(kv.value)];
    match kv.value {
      case Invalid =>
      case StringValue(s) => r := AppendText(r, s);
      case BoolValue(flag) => r := r + [if flag then 1 else 0];
      case IntValue(x) => r := r + UvarintBytes(ZigZag(x));
      case FloatValue(bits) => r := r + LittleEndian(bits, 8);
    }
  }

  lemma {:induction false} KeyValuesSnoc(kvs: seq<KeyValue>, kv: KeyValue)
    ensures KeyValuesBytes(kvs + [kv]) == KeyValuesBytes(kvs) + KeyValueBytes(kv)
  {
    hide KeyValueBytes;
    if kvs == [] {
      assert kvs + [kv] == [kv];
    } else {
      assert (kvs + [kv])[1..] == kvs[1..] + [kv];
      KeyValuesSnoc(kvs[1..], kv);
    }
  }

  method AppendAttributes(b: Bytes, kvs: Attributes) returns (r: Bytes)
    ensures r == b + AttributesBytes(kvs)
  {
    hide KeyValuesBytes, KeyValueBytes, UvarintBytes;
    r := b + UvarintBytes(|kvs|);
    assert KeyValuesBytes([]) == [] by { EmptyKeyValues(); }
    for i := 0 to |kvs|
      invariant r == b + UvarintBytes(|kvs|) + KeyValuesBytes(kvs[..i])
    {
      r := AppendKeyValue(r, kvs[i]);
      assert kvs[..i + 1] == kvs[..i] + [kvs[i]];
      KeyValuesSnoc(kvs[..i], kvs[i]);
    }
    assert kvs[..|kvs|] == kvs;
  }

  lemma EmptyKeyValues()
    ensures KeyValuesBytes([]) == []
  {
  }

  method EncodeSpan(b: Bytes, s: Span) returns (r: Bytes)
    ensures r == b + SpanBytes(s)
  {
    hide TextBytes, UvarintBytes, AttributesBytes;
    r := b + [CODEC_VERSION];
    r := r + s.traceID;
    r := r + s.spanID;
    r := r + s.parentID;
    assert r == b + IdsBytes(s);
    ghost var head := r;
    r := AppendText(r, s.name);
    r := r + [s.kind];
    r := AppendText(r, s.service);
    r := r + UvarintBytes(ZigZag(s.start));
    r := r + UvarintBytes(ZigZag(s.end));
    r := r + [s.code];
    r := AppendText(r, s.message);
    assert r == head + FactsBytes(s);
    r := AppendAttributes(r, s.attributes);
    r := AppendAttributes(r, s.resource);
  }

  /** What a read of more attributes makes of the ones already read. */
  ghost function Joined(kvs: seq<KeyValue>, more: Option<(seq<KeyValue>, Bytes)>): Option<(seq<KeyValue>, Bytes)> {
    match more
    case None => None
    case Some(r) => Some((kvs + r.0, r.1))
  }

  lemma JoinNothing(more: Option<(seq<KeyValue>, Bytes)>)
    ensures Joined([], more) == more
  {
    if more.Some? {
      assert [] + more.value.0 == more.value.0;
    }
  }

  lemma JoinOneMore(kvs: seq<KeyValue>, kv: KeyValue, more: Option<(seq<KeyValue>, Bytes)>)
    ensures Joined(kvs, Joined([kv], more)) == Joined(kvs + [kv], more)
  {
    if more.Some? {
      assert kvs + ([kv] + more.value.0) == kvs + [kv] + more.value.0;
    }
  }

  class Decoder {
    var buf: Bytes
    var err: bool

    constructor (p: Bytes)
      ensures buf == p && !err
    {
      buf, err := p, false;
    }

    /** How a read that should have returned want from buffer was left the
        decoder: a failure sticks, and a success consumed exactly its bytes. */
    twostate predicate Read<T(!new)>(want: Option<(T, Bytes)>, got: T)
      reads this
    {
      if old(err) || want.None? then err else !err && got == want.value.0 && buf == want.value.1
    }

    method Take(n: nat) returns (out: Bytes)
      modifies this
      ensures Read(ReadBytes(n, old(buf)), out)
      ensures !err ==> |out| == n
    {
      out := [];
      if err { return; }
      if |buf| < n {
        err := true;
        return;
      }
      out := buf[..n];
      buf := buf[n..];
    }

    method TakeByte() returns (x: Byte)
      modifies this
      ensures Read(ReadByte(old(buf)), x)
    {
      var b := Take(1);
      if b == [] { return 0; }
      x := b[0];
    }

    method TakeUvarint() returns (v: Uint64)
      modifies this
      ensures Read(ReadUvarint(old(buf)), v)
    {
      v := 0;
      if err { return; }
      match ReadUvarint(buf) {
        case None => err := true;
        case Some(r) => v, buf := r.0, r.1;
      }
    }

    method TakeVarint() returns (v: Int64)
      modifies this
      ensures Read(ReadVarint(old(buf)), v)
    {
      v := 0;
      if err { return; }
      match ReadVarint(buf) {
        case None => err := true;
        case Some(r) => v, buf := r.0, r.1;
      }
    }

    method TakeText() returns (s: Text)
      modifies this
      ensures Read(ReadText(old(buf)), s)
    {
      s := [];
      var n := TakeUvarint();
      if n > |buf| || n >= INT63 {
        err := true;
        return;
      }
      var b := Take(n);
      if |b| < INT63 {
        s := b;
      }
    }

    method TakeAttributes() returns (kvs: Attributes)
      modifies this
      ensures Read(ReadAttributes(old(buf)), kvs)
    {
      hide ReadUvarint, ReadKeyValue;
      kvs := [];
      var n := TakeUvarint();
      if err || n == 0 { return; }
      if n > |buf| / 2 || n >= INT63 {
        err := true;
        return;
      }
      ghost var want := ReadKeyValues(n, buf);
      JoinNothing(want);
      var i := 0;
      while i < n
        invariant 0 <= i <= n && |kvs| == i
        invariant !err
        invariant want == Joined(kvs, ReadKeyValues(n - i, buf))
      {
        ghost var before := buf;
        var kv := TakeKeyValue();
        if err { return []; }
        JoinOneMore(kvs, kv, ReadKeyValues(n - i - 1, buf));
        assert ReadKeyValues(n - i, before) == Joined([kv], ReadKeyValues(n - i - 1, buf));
        kvs := kvs + [kv];
        i := i + 1;
      }
      assert kvs + [] == kvs;
    }

    method TakeKeyValue() returns (kv: KeyValue)
      requires !err
      modifies this
      ensures Read(ReadKeyValue(old(buf)), kv)
    {
      hide ReadText, ReadVarint;
      var key := TakeText();
      var kind := TakeByte();
      var value := Invalid;
      if kind == 0 {
      } else if kind == 1 {
        var s := TakeText();
        value := StringValue(s);
      } else if kind == 2 {
        var x := TakeByte();
        value := BoolValue(x == 1);
      } else if kind == 3 {
        var x := TakeVarint();
        value := IntValue(x);
      } else if kind == 4 {
        var bits := Take(8);
        if !err {
          Pow256Values();
          value := FloatValue(FromLittleEndian(bits));
        }
      } else {
        err := true;
      }
      kv := KeyValue(key, value);
    }
  }

  method DecodeSpan(p: Bytes) returns (r: Option<Span>)
    ensures r == Decoded(p)
  {
    hide ReadText, ReadVarint, ReadAttributes;
    var d := new Decoder(p);
    var version := d.TakeByte();
    if !d.err && version != CODEC_VERSION { return None; }
    var traceID := d.Take(16);
    var spanID := d.Take(8);
    var parentID := d.Take(8);
    var name := d.TakeText();
    var kind := d.TakeByte();
    var service := d.TakeText();
    var start := d.TakeVarint();
    var end := d.TakeVarint();
    var code := d.TakeByte();
    var message := d.TakeText();
    var attributes := d.TakeAttributes();
    var resource := d.TakeAttributes();
    if d.err || d.buf != [] { return None; }
    r := Some(Span(traceID, spanID, parentID, name, kind, service, start, end, code, message, attributes, resource));
  }
}
