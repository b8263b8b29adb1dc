/** Sparkplug B payloads and metrics over the wire format. Text and float payloads stay bytes. */
module Sparkplug {
  import opened Text
  import opened Wire

  datatype MetricValue = IntValue(n: nat) | FloatBits(bytes: Bytes) | DoubleBits(bytes: Bytes) | BoolValue(b: bool) | TextValue(bytes: Bytes)

  datatype Metric = Metric(name: Option<Bytes>, alias: Option<nat>, timestamp: Option<nat>, kind: Option<nat>,
                           isNull: Option<bool>, value: Option<MetricValue>)

  datatype Payload = Payload(timestamp: Option<nat>, metrics: seq<Metric>, sequence: Option<nat>)

  const NO_METRIC := Metric(None, None, None, None, None, None)

  // Decoding

  /** One field read into a metric; a field of another number, or with another wire type, is skipped. */
  function IntoMetric(m: Metric, f: Field): Result<Metric> {
    match f
    case Field(1, Delimited(b)) => Ok(m.(name := Some(b)))
    case Field(2, Number(n)) => Ok(m.(alias := Some(n)))
    case Field(3, Number(n)) => Ok(m.(timestamp := Some(n)))
    case Field(4, Number(n)) => Ok(m.(kind := Some(n)))
    case Field(7, Number(n)) => Ok(m.(isNull := Some(n != 0)))
    case Field(10, Number(n)) => Ok(m.(value := Some(IntValue(n))))
    case Field(11, Number(n)) => Ok(m.(value := Some(IntValue(n))))
    case Field(12, Fixed32(b)) => if |b| == 4 then Ok(m.(value := Some(FloatBits(b)))) else Err(BadLength)
    case Field(13, Fixed64(b)) => if |b| == 8 then Ok(m.(value := Some(DoubleBits(b)))) else Err(BadLength)
    case Field(14, Number(n)) => Ok(m.(value := Some(BoolValue(n != 0))))
    case Field(15, Delimited(b)) => Ok(m.(value := Some(TextValue(b))))
    case _ => Ok(m)
  }

  function FoldMetric(m: Metric, fs: seq<Field>): Result<Metric>
    decreases |fs|
  {
    if fs == [] then Ok(m)
    else
      var next := IntoMetric(m, fs[0]);
      if next.Err? then next else FoldMetric(next.value, fs[1..])
  }

  /** The first complaint wins: of a field already yielded, else of the iteration itself. */
  function DecodeMetric(buf: Bytes): Result<Metric> {
    var stream := ReadFields(buf, 0);
    var m := FoldMetric(NO_METRIC, stream.fields);
    if m.Ok? && stream.error.Some? then Err(stream.error.value) else m
  }

  function IntoPayload(p: Payload, f: Field): Result<Payload> {
    match f
    case Field(1, Number(n)) => Ok(p.(timestamp := Some(n)))
    case Field(2, Delimited(b)) =>
      var m := DecodeMetric(b);
      if m.Err? then Err(m.error) else Ok(p.(metrics := p.metrics + [m.value]))
    case Field(3, Number(n)) => Ok(p.(sequence := Some(n)))
    case _ => Ok(p)
  }

  function FoldPayload(p: Payload, fs: seq<Field>): Result<Payload>
    decreases |fs|
  {
    if fs == [] then Ok(p)
    else
      var next := IntoPayload(p, fs[0]);
      if next.Err? then next else FoldPayload(next.value, fs[1..])
  }

  function DecodePayload(buf: Bytes): Result<Payload> {
    var stream := ReadFields(buf, 0);
    var p := FoldPayload(Payload(None, [], None), stream.fields);
    if p.Ok? && stream.error.Some? then Err(stream.error.value) else p
  }

  // The loops

  method DecodeMetricLoop(buf: Bytes) returns (r: Result<Metric>)
    ensures r == DecodeMetric(buf)
  {
    hide IntoMetric, ReadFields;
    var fields, error := IterateFields(buf);
    var m := NO_METRIC;
    for i := 0 to |fields|
      invariant FoldMetric(NO_METRIC, fields) == FoldMetric(m, fields[i..])
    {
      assert fields[i..][0] == fields[i] && fields[i..][1..] == fields[i + 1..];
      var next := IntoMetric(m, fields[i]);
      if next.Err? { return next; }
      m := next.value;
    }
    r := if error.Some? then Err(error.value) else Ok(m);
  }

  method DecodePayloadLoop(buf: Bytes) returns (r: Result<Payload>)
    ensures r == DecodePayload(buf)
  {
    hide DecodeMetric, ReadFields;
    var fields, error := IterateFields(buf);
    var p := Payload(None, [], None);
    for i := 0 to |fields|
      invariant FoldPayload(Payload(None, [], None), fields) == FoldPayload(p, fields[i..])
    {
      var f := fields[i];
      assert fields[i..][0] == f && fields[i..][1..] == fields[i + 1..];
      if f.number == 1 && f.value.Number? {
        p := p.(timestamp := Some(f.value.n));
      } else if f.number == 2 && f.value.Delimited? {
        var m := DecodeMetricLoop(f.value.bytes);
        if m.Err? { return Err(m.error); }
        p := p.(metrics := p.metrics + [m.value]);
      } else if f.number == 3 && f.value.Number? {
        p := p.(sequence := Some(f.value.n));
      }
    }
    r := if error.Some? then Err(error.value) else Ok(p);
  }

  // Encoding

  function NumberField(number: nat, n: Option<nat>): seq<Field> {
    if n.Some? then [Field(number, Number(n.value))] else []
  }

  function Bit(b: bool): nat {
    if b then 1 else 0
  }

  /** Integers go out as an int or, when asked to, as a long; both are read back the same. */
  function ValueField(v: MetricValue, long: bool): Field {
    match v
    case IntValue(n) => Field(if long then 11 else 10, Number(n))
    case FloatBits(b) => Field(12, Fixed32(b))
    case DoubleBits(b) => Field(13, Fixed64(b))
    case BoolValue(b) => Field(14, Number(Bit(b)))
    case TextValue(b) => Field(15, Delimited(b))
  }

  function HeadFields(m: Metric): seq<Field> {
    (if m.name.Some? then [Field(1, Delimited(m.name.value))] else [])
    + (NumberField(2, m.alias) + (NumberField(3, m.timestamp) + NumberField(4, m.kind)))
  }

  function TailFields(m: Metric, long: bool): seq<Field> {
    (if m.isNull.Some? then [Field(7, Number(Bit(m.isNull.value)))] else [])
    + (if m.value.Some? then [ValueField(m.value.value, long)] else [])
  }

  function MetricFields(m: Metric, long: bool): seq<Field> {
    HeadFields(m) + TailFields(m, long)
  }

  predicate WellFormedMetric(m: Metric) {
    m.value.Some? ==> WellFormed(ValueField(m.value.value, false))
  }

  function EncodeMetric(m: Metric, long: bool): Bytes {
    EncodeFields(MetricFields(m, long))
  }

  function MetricsFields(ms: seq<Metric>, long: bool): seq<Field> {
    if ms == [] then [] else [Field(2, Delimited(EncodeMetric(ms[0], long)))] + MetricsFields(ms[1..], long)
  }

  function PayloadFields(p: Payload, long: bool): seq<Field> {
    NumberField(1, p.timestamp) + (MetricsFields(p.metrics, long) + NumberField(3, p.sequence))
  }

  function EncodePayload(p: Payload, long: bool): Bytes {
    EncodeFields(PayloadFields(p, long))
  }

  lemma {:induction false} FoldMetricSum(m: Metric, a: seq<Field>, b: seq<Field>)
    ensures var front := FoldMetric(m, a);
            FoldMetric(m, a + b) == if front.Err? then front else FoldMetric(front.value, b)
    decreases |a|
  {
    hide IntoMetric;
    if a == [] {
      assert a + b == b;
    } else {
      assert (a + b)[0] == a[0] && (a + b)[1..] == a[1..] + b;
      var next := IntoMetric(m, a[0]);
      if next.Ok? {
        FoldMetricSum(next.value, a[1..], b);
      }
    }
  }

  lemma {:induction false} FoldPayloadSum(p: Payload, a: seq<Field>, b: seq<Field>)
    ensures var front := FoldPayload(p, a);
            FoldPayload(p, a + b) == if front.Err? then front else FoldPayload(front.value, b)
    decreases |a|
  {
    hide IntoPayload;
    if a == [] {
      assert a + b == b;
    } else {
      assert (a + b)[0] == a[0] && (a + b)[1..] == a[1..] + b;
      var next := IntoPayload(p, a[0]);
      if next.Ok? {
        FoldPayloadSum(next.value, a[1..], b);
      }
    }
  }

  lemma FoldOne(m: Metric, f: Field)
    ensures FoldMetric(m, [f]) == IntoMetric(m, f)
  {
    hide IntoMetric;
    assert [f][1..] == [];
  }

  lemma FoldNumber(m: Metric, number: nat, n: Option<nat>)
    ensures FoldMetric(m, NumberField(number, n)) ==
            if n.Some? then IntoMetric(m, Field(number, Number(n.value))) else Ok(m)
  {
    if n.Some? {
      FoldOne(m, Field(number, Number(n.value)));
    }
    hide IntoMetric;
  }

  lemma HeadRead(m: Metric)
    ensures FoldMetric(NO_METRIC, HeadFields(m)) == Ok(m.(isNull := None, value := None))
  {
    hide FoldMetric;
    var name := if m.name.Some? then [Field(1, Delimited(m.name.value))] else [];
    var m1 := NO_METRIC.(name := m.name);
    var m2 := m1.(alias := m.alias);
    var m3 := m2.(timestamp := m.timestamp);
    FoldMetricSum(NO_METRIC, name, NumberField(2, m.alias) + (NumberField(3, m.timestamp) + NumberField(4, m.kind)));
    FoldMetricSum(m1, NumberField(2, m.alias), NumberField(3, m.timestamp) + NumberField(4, m.kind));
    FoldMetricSum(m2, NumberField(3, m.timestamp), NumberField(4, m.kind));
    if m.name.Some? {
      FoldOne(NO_METRIC, Field(1, Delimited(m.name.value)));
    } else {
      FoldNone(NO_METRIC);
    }
    FoldNumber(m1, 2, m.alias);
    FoldNumber(m2, 3, m.timestamp);
    FoldNumber(m3, 4, m.kind);
  }

  lemma FoldNone(m: Metric)
    ensures FoldMetric(m, []) == Ok(m)
  {
  }

  lemma TailRead(m: Metric, long: bool, head: Metric)
    requires WellFormedMetric(m) && head == m.(isNull := None, value := None)
    ensures FoldMetric(head, TailFields(m, long)) == Ok(m)
  {
    hide FoldMetric;
    var isNull := if m.isNull.Some? then [Field(7, Number(Bit(m.isNull.value)))] else [];
    var value := if m.value.Some? then [ValueField(m.value.value, long)] else [];
    var m1 := head.(isNull := m.isNull);
    FoldMetricSum(head, isNull, value);
    if m.isNull.Some? {
      FoldOne(head, isNull[0]);
    } else {
      FoldNone(head);
    }
    if m.value.Some? {
      FoldOne(m1, value[0]);
    } else {
      FoldNone(m1);
    }
  }

  lemma FieldsWellFormed(m: Metric, long: bool)
    requires WellFormedMetric(m)
    ensures forall f :: f in MetricFields(m, long) ==> WellFormed(f)
  {
  }

  /** Decoding an encoded metric gives it back. */
  lemma MetricRoundTrip(m: Metric, long: bool)
    requires WellFormedMetric(m)
    ensures DecodeMetric(EncodeMetric(m, long)) == Ok(m)
  {
    FieldsWellFormed(m, long);
    EncodedAlone(MetricFields(m, long));
    FoldMetricSum(NO_METRIC, HeadFields(m), TailFields(m, long));
    HeadRead(m);
    TailRead(m, long, m.(isNull := None, value := None));
    hide FoldMetric, ReadFields, EncodeFields, HeadFields, TailFields;
  }

  lemma FoldPayloadOne(p: Payload, f: Field)
    ensures FoldPayload(p, [f]) == IntoPayload(p, f)
  {
    hide IntoPayload;
    assert [f][1..] == [];
  }

  lemma {:induction false} MetricsRead(p: Payload, ms: seq<Metric>, long: bool)
    requires forall m :: m in ms ==> WellFormedMetric(m)
    ensures FoldPayload(p, MetricsFields(ms, long)) == Ok(p.(metrics := p.metrics + ms))
    decreases |ms|
  {
    hide DecodeMetric, EncodeMetric, WellFormedMetric;
    if ms == [] {
      assert p.metrics + ms == p.metrics;
    } else {
      MetricRoundTrip(ms[0], long);
      var f := Field(2, Delimited(EncodeMetric(ms[0], long)));
      var next := p.(metrics := p.metrics + [ms[0]]);
      assert IntoPayload(p, f) == Ok(next);
      MetricsRead(next, ms[1..], long);
      assert next.metrics + ms[1..] == p.metrics + ms;
      assert ([f] + MetricsFields(ms[1..], long))[1..] == MetricsFields(ms[1..], long);
    }
  }

  lemma {:induction false} MetricsWellFormed(ms: seq<Metric>, long: bool)
    ensures forall f :: f in MetricsFields(ms, long) ==> WellFormed(f)
  {
    hide EncodeMetric;
    if ms != [] {
      MetricsWellFormed(ms[1..], long);
    }
  }

  lemma PayloadNumber(p: Payload, number: nat, n: Option<nat>)
    ensures FoldPayload(p, NumberField(number, n)) ==
            if n.Some? then IntoPayload(p, Field(number, Number(n.value))) else Ok(p)
  {
    if n.Some? {
      FoldPayloadOne(p, Field(number, Number(n.value)));
    }
    hide IntoPayload;
  }

  /** Decoding an encoded payload of metrics gives it back. */
  lemma PayloadRoundTrip(p: Payload, long: bool)
    requires forall m :: m in p.metrics ==> WellFormedMetric(m)
    ensures DecodePayload(EncodePayload(p, long)) == Ok(p)
  {
    hide FoldPayload, ReadFields, EncodeFields, MetricsFields, DecodeMetric, WellFormedMetric;
    MetricsWellFormed(p.metrics, long);
    EncodedAlone(PayloadFields(p, long));
    var start := Payload(None, [], None);
    var timed := start.(timestamp := p.timestamp);
    var filled := timed.(metrics := p.metrics);
    FoldPayloadSum(start, NumberField(1, p.timestamp), MetricsFields(p.metrics, long) + NumberField(3, p.sequence));
    FoldPayloadSum(timed, MetricsFields(p.metrics, long), NumberField(3, p.sequence));
    PayloadNumber(start, 1, p.timestamp);
    MetricsRead(timed, p.metrics, long);
    assert [] + p.metrics == p.metrics;
    PayloadNumber(filled, 3, p.sequence);
  }

  // Fields the decoder does not read

  /** The fields of a metric that are read, each with its one wire type; all others are skipped. */
  ghost predicate ReadInMetric(number: nat, wire: nat) {
    || (number in {1, 15} && wire == 2)
    || (number in {2, 3, 4, 7, 10, 11, 14} && wire == 0)
    || (number == 12 && wire == 5)
    || (number == 13 && wire == 1)
  }

  ghost predicate ReadInPayload(number: nat, wire: nat) {
    (number in {1, 3} && wire == 0) || (number == 2 && wire == 2)
  }

  lemma SkippedInMetric(m: Metric, u: Field)
    requires !ReadInMetric(u.number, WireOf(u.value))
    ensures IntoMetric(m, u) == Ok(m)
  {
  }

  /** A well-formed field with an unknown number, or with another wire type, between any fields of a metric, changes nothing. */
  lemma UnknownInMetric(a: seq<Field>, u: Field, b: seq<Field>)
    requires WellFormed(u) && !ReadInMetric(u.number, WireOf(u.value))
    requires (forall f :: f in a ==> WellFormed(f)) && (forall f :: f in b ==> WellFormed(f))
    ensures DecodeMetric(EncodeFields(a + ([u] + b))) == DecodeMetric(EncodeFields(a + b))
  {
    forall m: Metric ensures IntoMetric(m, u) == Ok(m) {
      SkippedInMetric(m, u);
    }
    hide IntoMetric, WellFormed, ReadFields, EncodeFields, ReadInMetric;
    EncodedAlone(a + ([u] + b));
    EncodedAlone(a + b);
    FoldMetricSum(NO_METRIC, a, [u] + b);
    FoldMetricSum(NO_METRIC, a, b);
    var front := FoldMetric(NO_METRIC, a);
    if front.Ok? {
      assert ([u] + b)[1..] == b;
      assert FoldMetric(front.value, [u] + b) == FoldMetric(front.value, b);
    }
  }

  lemma SkippedInPayload(p: Payload, u: Field)
    requires !ReadInPayload(u.number, WireOf(u.value))
    ensures IntoPayload(p, u) == Ok(p)
  {
    hide DecodeMetric;
  }

  /** Likewise between any fields of a payload. */
  lemma UnknownInPayload(a: seq<Field>, u: Field, b: seq<Field>)
    requires WellFormed(u) && !ReadInPayload(u.number, WireOf(u.value))
    requires (forall f :: f in a ==> WellFormed(f)) && (forall f :: f in b ==> WellFormed(f))
    ensures DecodePayload(EncodeFields(a + ([u] + b))) == DecodePayload(EncodeFields(a + b))
  {
    forall p: Payload ensures IntoPayload(p, u) == Ok(p) {
      SkippedInPayload(p, u);
    }
    hide IntoPayload, WellFormed, ReadFields, EncodeFields, ReadInPayload;
    EncodedAlone(a + ([u] + b));
    EncodedAlone(a + b);
    FoldPayloadSum(Payload(None, [], None), a, [u] + b);
    FoldPayloadSum(Payload(None, [], None), a, b);
    var front := FoldPayload(Payload(None, [], None), a);
    if front.Ok? {
      assert ([u] + b)[1..] == b;
      assert FoldPayload(front.value, [u] + b) == FoldPayload(front.value, b);
    }
  }

  // Repeated fields and flags

  /** Fields that set the same part of a metric: the same number, or any two of the value fields. */
  ghost predicate SamePart(u: Field, v: Field) {
    && ReadInMetric(u.number, WireOf(u.value)) && ReadInMetric(v.number, WireOf(v.value))
    && (u.number == v.number || (10 <= u.number <= 15 && 10 <= v.number <= 15))
  }

  lemma Overwritten(m: Metric, u: Field, v: Field)
    requires SamePart(u, v) && WellFormed(u)
    ensures IntoMetric(m, u).Ok? && IntoMetric(IntoMetric(m, u).value, v) == IntoMetric(m, v)
  {
  }

  /** Of two neighbouring fields for the same part of a metric the later one counts. */
  lemma LaterFieldWins(a: seq<Field>, u: Field, v: Field, b: seq<Field>)
    requires WellFormed(u) && WellFormed(v) && SamePart(u, v)
    requires (forall f :: f in a ==> WellFormed(f)) && (forall f :: f in b ==> WellFormed(f))
    ensures DecodeMetric(EncodeFields(a + ([u] + ([v] + b)))) == DecodeMetric(EncodeFields(a + ([v] + b)))
  {
    forall m: Metric ensures IntoMetric(m, u).Ok? && IntoMetric(IntoMetric(m, u).value, v) == IntoMetric(m, v) {
      Overwritten(m, u, v);
    }
    hide IntoMetric, WellFormed, ReadFields, EncodeFields, SamePart;
    EncodedAlone(a + ([u] + ([v] + b)));
    EncodedAlone(a + ([v] + b));
    FoldMetricSum(NO_METRIC, a, [u] + ([v] + b));
    FoldMetricSum(NO_METRIC, a, [v] + b);
    var front := FoldMetric(NO_METRIC, a);
    if front.Ok? {
      assert ([u] + ([v] + b))[1..] == [v] + b && ([v] + b)[1..] == b;
      assert FoldMetric(front.value, [u] + ([v] + b)) == FoldMetric(IntoMetric(front.value, u).value, [v] + b);
    }
  }

  /** A buffer with one field is read as that field is. */
  lemma OneField(f: Field)
    requires WellFormed(f)
    ensures DecodeMetric(EncodeFields([f])) == IntoMetric(NO_METRIC, f)
    ensures DecodePayload(EncodeFields([f])) == IntoPayload(Payload(None, [], None), f)
  {
    EncodedAlone([f]);
    FoldOne(NO_METRIC, f);
    FoldPayloadOne(Payload(None, [], None), f);
    hide ReadFields, EncodeFields, FoldMetric, FoldPayload, IntoMetric, IntoPayload;
  }

  /** Which field of a metric sets which part; a flag is set by any number but zero. */
  lemma MetricFieldNumbers(m: Metric, n: nat, b: Bytes)
    ensures IntoMetric(m, Field(1, Delimited(b))) == Ok(m.(name := Some(b)))
    ensures IntoMetric(m, Field(2, Number(n))) == Ok(m.(alias := Some(n)))
    ensures IntoMetric(m, Field(3, Number(n))) == Ok(m.(timestamp := Some(n)))
    ensures IntoMetric(m, Field(4, Number(n))) == Ok(m.(kind := Some(n)))
    ensures IntoMetric(m, Field(7, Number(n))) == Ok(m.(isNull := Some(n > 0)))
    ensures forall number :: number in {10, 11} ==> IntoMetric(m, Field(number, Number(n))) == Ok(m.(value := Some(IntValue(n))))
    ensures |b| == 4 ==> IntoMetric(m, Field(12, Fixed32(b))) == Ok(m.(value := Some(FloatBits(b))))
    ensures |b| == 8 ==> IntoMetric(m, Field(13, Fixed64(b))) == Ok(m.(value := Some(DoubleBits(b))))
    ensures IntoMetric(m, Field(14, Number(n))) == Ok(m.(value := Some(BoolValue(n > 0))))
    ensures IntoMetric(m, Field(15, Delimited(b))) == Ok(m.(value := Some(TextValue(b))))
  {
  }

  /** Which field of a payload carries which part. */
  lemma PayloadFieldNumbers(p: Payload, n: nat, m: Metric, long: bool)
    requires WellFormedMetric(m)
    ensures IntoPayload(p, Field(1, Number(n))) == Ok(p.(timestamp := Some(n)))
    ensures IntoPayload(p, Field(2, Delimited(EncodeMetric(m, long)))) == Ok(p.(metrics := p.metrics + [m]))
    ensures IntoPayload(p, Field(3, Number(n))) == Ok(p.(sequence := Some(n)))
  {
    MetricRoundTrip(m, long);
    hide DecodeMetric, EncodeMetric, WellFormedMetric;
  }

  // Damaged buffers

  /** The first complaint of the fields themselves wins, else that of the iteration; there is no result then. */
  lemma DamagedMetric(fs: seq<Field>, tail: Bytes)
    requires (forall f :: f in fs ==> WellFormed(f)) && ReadFields(tail, 0).fields == [] && ReadFields(tail, 0).error.Some?
    ensures DecodeMetric(EncodeFields(fs) + tail) ==
            if DecodeMetric(EncodeFields(fs)).Err? then DecodeMetric(EncodeFields(fs)) else Err(ReadFields(tail, 0).error.value)
  {
    ReadConcat(fs, tail);
    EncodedAlone(fs);
    assert fs + [] == fs;
    hide ReadFields, EncodeFields, FoldMetric, WellFormed;
  }

  lemma DamagedPayload(fs: seq<Field>, tail: Bytes)
    requires (forall f :: f in fs ==> WellFormed(f)) && ReadFields(tail, 0).fields == [] && ReadFields(tail, 0).error.Some?
    ensures DecodePayload(EncodeFields(fs) + tail) ==
            if DecodePayload(EncodeFields(fs)).Err? then DecodePayload(EncodeFields(fs)) else Err(ReadFields(tail, 0).error.value)
  {
    ReadConcat(fs, tail);
    EncodedAlone(fs);
    assert fs + [] == fs;
    hide ReadFields, EncodeFields, FoldPayload, WellFormed;
  }

  /** A float or a double cut short is refused. */
  lemma ShortFloat(part: Bytes)
    ensures |part| < 4 ==> DecodeMetric(EncodeVarint(8 * 12 + 5) + part) == Err(BadLength)
    ensures |part| < 8 ==> DecodeMetric(EncodeVarint(8 * 13 + 1) + part) == Err(BadLength)
  {
    ShortFixed(12, part);
    ShortFixed(13, part);
    FoldOne(NO_METRIC, Field(12, Fixed32(part)));
    FoldOne(NO_METRIC, Field(13, Fixed64(part)));
    hide ReadFields, FoldMetric, EncodeVarint;
  }

  /** What is wrong with a metric is wrong with a payload that holds it. */
  lemma BadMetricBadPayload(buf: Bytes)
    requires DecodeMetric(buf).Err?
    ensures DecodePayload(EncodeFields([Field(2, Delimited(buf))])) == Err(DecodeMetric(buf).error)
  {
    EncodedAlone([Field(2, Delimited(buf))]);
    FoldPayloadOne(Payload(None, [], None), Field(2, Delimited(buf)));
    hide ReadFields, EncodeFields, FoldPayload, DecodeMetric;
  }

  /** And inside one metric of a payload: two metric buffers that decode alike can be exchanged. */
  lemma SameMetricSamePayload(a: seq<Field>, x: Bytes, y: Bytes, b: seq<Field>)
    requires DecodeMetric(x) == DecodeMetric(y)
    requires (forall f :: f in a ==> WellFormed(f)) && (forall f :: f in b ==> WellFormed(f))
    ensures DecodePayload(EncodeFields(a + ([Field(2, Delimited(x))] + b))) ==
            DecodePayload(EncodeFields(a + ([Field(2, Delimited(y))] + b)))
  {
    var u, v := Field(2, Delimited(x)), Field(2, Delimited(y));
    assert WellFormed(u) && WellFormed(v);
    assert forall p :: IntoPayload(p, u) == IntoPayload(p, v);
    hide IntoPayload, WellFormed, ReadFields, EncodeFields;
    EncodedAlone(a + ([u] + b));
    EncodedAlone(a + ([v] + b));
    FoldPayloadSum(Payload(None, [], None), a, [u] + b);
    FoldPayloadSum(Payload(None, [], None), a, [v] + b);
    var front := FoldPayload(Payload(None, [], None), a);
    if front.Ok? {
      assert ([u] + b)[1..] == b && ([v] + b)[1..] == b;
      assert FoldPayload(front.value, [u] + b) == FoldPayload(front.value, [v] + b);
    }
  }
}
