/** The protobuf wire format: the reader of the decoder, and the encoder it is the inverse of. */
module Wire {
  import opened Text

  type Byte = b: int | 0 <= b < 256 witness 0

  type Bytes = seq<Byte>

  datatype Error = EndOfBuffer | UnsupportedWire | BadLength

  datatype Result<+T> = Ok(value: T) | Err(error: Error)

  /** A field's payload: a number, or the bytes of a fixed-size or length-delimited value. */
  datatype Value = Number(n: nat) | Fixed64(bytes: Bytes) | Delimited(bytes: Bytes) | Fixed32(bytes: Bytes)

  datatype Field = Field(number: nat, value: Value)

  // Reading

  datatype Varint = Varint(value: nat, next: nat)

  /** A varint at position i: seven bits a byte, the low ones first, until a byte below 128. */
  function ReadVarint(buf: Bytes, i: nat): (r: Result<Varint>)
    ensures r.Ok? ==> i < r.value.next <= |buf|
    decreases |buf| - i
  {
    if i >= |buf| then Err(EndOfBuffer)
    else if buf[i] < 128 then Ok(Varint(buf[i], i + 1))
    else
      var rest := ReadVarint(buf, i + 1);
      if rest.Err? then rest else Ok(Varint(buf[i] % 128 + 128 * rest.value.value, rest.value.next))
  }

  function Min(a: nat, b: nat): nat {
    if a < b then a else b
  }

  /** A slice of n bytes from i; like the language's own, it is short when the buffer ends. */
  function Slice(buf: Bytes, i: nat, n: nat): Bytes {
    buf[Min(i, |buf|)..Min(i + n, |buf|)]
  }

  datatype Step = Step(field: Field, next: nat)

  /** The field at position i and the position behind it. */
  function ReadField(buf: Bytes, i: nat): (r: Result<Step>)
    requires i < |buf|
    ensures r.Ok? ==> r.value.next > i
  {
    var tag := ReadVarint(buf, i);
    if tag.Err? then Err(tag.error)
    else
      var number, wire, at := tag.value.value / 8, tag.value.value % 8, tag.value.next;
      if wire == 0 then
        var v := ReadVarint(buf, at);
        if v.Err? then Err(v.error) else Ok(Step(Field(number, Number(v.value.value)), v.value.next))
      else if wire == 1 then Ok(Step(Field(number, Fixed64(Slice(buf, at, 8))), at + 8))
      else if wire == 2 then
        var n := ReadVarint(buf, at);
        if n.Err? then Err(n.error)
        else Ok(Step(Field(number, Delimited(Slice(buf, n.value.next, n.value.value))), n.value.next + n.value.value))
      else if wire == 5 then Ok(Step(Field(number, Fixed32(Slice(buf, at, 4))), at + 4))
      else Err(UnsupportedWire)
  }

  /** What iterating over the fields yields: some fields and then, maybe, an error. */
  datatype Fields = Fields(fields: seq<Field>, error: Option<Error>)

  function ReadFields(buf: Bytes, i: nat): Fields
    decreases |buf| - i
  {
    if i >= |buf| then Fields([], None)
    else
      var step := ReadField(buf, i);
      if step.Err? then Fields([], Some(step.error))
      else
        var rest := ReadFields(buf, step.value.next);
        Fields([step.value.field] + rest.fields, rest.error)
  }

  // The loops

  method DecodeVarint(buf: Bytes, start: nat) returns (r: Result<Varint>)
    ensures r == ReadVarint(buf, start)
  {
    var i: nat, shift: nat, val: nat := start, 1, 0;
    while true
      invariant start <= i <= |buf| || i == start
      invariant shift >= 1 && val >= 0
      invariant ReadVarint(buf, start) == Shifted(ReadVarint(buf, i), val, shift)
      decreases |buf| - i
    {
      if i >= |buf| { return Err(EndOfBuffer); }
      var b: nat := buf[i];
      ghost var rest := if b >= 128 then ReadVarint(buf, i + 1) else Err(EndOfBuffer);
      ShiftOnce(rest, val, shift, b);
      val := val + b % 128 * shift;
      i := i + 1;
      if b < 128 { return Ok(Varint(val, i)); }
      shift := shift * 128;
    }
  }

  /** A result read behind a prefix that already gave val, with its bits moved up. */
  ghost function Shifted(r: Result<Varint>, val: nat, shift: nat): Result<Varint> {
    if r.Err? then r else Ok(Varint(val + r.value.value * shift, r.value.next))
  }

  lemma ShiftOnce(rest: Result<Varint>, val: nat, shift: nat, b: nat)
    ensures rest.Ok? ==>
              Shifted(Ok(Varint(b % 128 + 128 * rest.value.value, rest.value.next)), val, shift)
              == Shifted(rest, val + b % 128 * shift, shift * 128)
  {
    if rest.Ok? {
      Distribute(b % 128, rest.value.value, shift);
    }
  }

  lemma Distribute(low: nat, high: nat, shift: nat)
    ensures (low + 128 * high) * shift == low * shift + high * (shift * 128)
  {
  }

  method IterateFields(buf: Bytes) returns (fields: seq<Field>, error: Option<Error>)
    ensures Fields(fields, error) == ReadFields(buf, 0)
  {
    hide ReadVarint, Slice;
    fields, error := [], None;
    var i := 0;
    while i < |buf|
      invariant ReadFields(buf, 0) == Fields(fields + ReadFields(buf, i).fields, ReadFields(buf, i).error)
      decreases |buf| - i
    {
      var tag := DecodeVarint(buf, i);
      if tag.Err? { return fields, Some(tag.error); }
      var number, wire, at := tag.value.value / 8, tag.value.value % 8, tag.value.next;
      var value;
      if wire == 0 {
        var v := DecodeVarint(buf, at);
        if v.Err? { return fields, Some(v.error); }
        value, at := Number(v.value.value), v.value.next;
      } else if wire == 1 {
        value, at := Fixed64(Slice(buf, at, 8)), at + 8;
      } else if wire == 2 {
        var n := DecodeVarint(buf, at);
        if n.Err? { return fields, Some(n.error); }
        value, at := Delimited(Slice(buf, n.value.next, n.value.value)), n.value.next + n.value.value;
      } else if wire == 5 {
        value, at := Fixed32(Slice(buf, at, 4)), at + 4;
      } else {
        return fields, Some(UnsupportedWire);
      }
      assert fields + ([Field(number, value)] + ReadFields(buf, at).fields) == (fields + [Field(number, value)]) + ReadFields(buf, at).fields;
      fields := fields + [Field(number, value)];
      i := at;
    }
  }

  // Encoding

  function EncodeVarint(n: nat): Bytes {
    if n < 128 then [n] else [n % 128 + 128] + EncodeVarint(n / 128)
  }

  function WireOf(v: Value): nat {
    match v
    case Number(_) => 0
    case Fixed64(_) => 1
    case Delimited(_) => 2
    case Fixed32(_) => 5
  }

  function EncodeValue(v: Value): Bytes {
    match v
    case Number(n) => EncodeVarint(n)
    case Fixed64(b) => b
    case Delimited(b) => EncodeVarint(|b|) + b
    case Fixed32(b) => b
  }

  predicate WellFormed(f: Field) {
    (f.value.Fixed64? ==> |f.value.bytes| == 8) && (f.value.Fixed32? ==> |f.value.bytes| == 4)
  }

  function EncodeField(f: Field): Bytes {
    EncodeVarint(8 * f.number + WireOf(f.value)) + EncodeValue(f.value)
  }

  function EncodeFields(fs: seq<Field>): Bytes {
    if fs == [] then [] else EncodeField(fs[0]) + EncodeFields(fs[1..])
  }

  /** part stands in buf at position i. */
  predicate At(buf: Bytes, i: nat, part: Bytes) {
    i + |part| <= |buf| && buf[i..i + |part|] == part
  }

  lemma AtSplit(buf: Bytes, i: nat, a: Bytes, b: Bytes)
    ensures At(buf, i, a + b) <==> At(buf, i, a) && At(buf, i + |a|, b)
  {
    if At(buf, i, a + b) {
      assert a == (a + b)[..|a|] && b == (a + b)[|a|..];
      assert buf[i..i + |a|] == buf[i..i + |a + b|][..|a|];
      assert buf[i + |a|..i + |a| + |b|] == buf[i..i + |a + b|][|a|..];
    }
    if At(buf, i, a) && At(buf, i + |a|, b) {
      assert buf[i..i + |a + b|] == buf[i..i + |a|] + buf[i + |a|..i + |a| + |b|];
    }
  }

  /** Reading an encoded varint, wherever it stands and whatever follows, gives the number and its length. */
  lemma {:induction false} VarintRoundTrip(buf: Bytes, i: nat, n: nat)
    requires At(buf, i, EncodeVarint(n))
    ensures ReadVarint(buf, i) == Ok(Varint(n, i + |EncodeVarint(n)|))
    decreases n
  {
    assert buf[i] == EncodeVarint(n)[0];
    if n >= 128 {
      AtSplit(buf, i, [n % 128 + 128], EncodeVarint(n / 128));
      VarintRoundTrip(buf, i + 1, n / 128);
    }
  }

  lemma TagParts(number: nat, wire: nat)
    requires wire < 8
    ensures (8 * number + wire) / 8 == number && (8 * number + wire) % 8 == wire
  {
  }

  lemma SliceIs(buf: Bytes, i: nat, part: Bytes)
    requires At(buf, i, part)
    ensures Slice(buf, i, |part|) == part
  {
  }

  /** Reading an encoded field gives the field and the position behind it. */
  lemma FieldRoundTrip(buf: Bytes, i: nat, f: Field)
    requires WellFormed(f) && At(buf, i, EncodeField(f))
    ensures |EncodeField(f)| > 0 && ReadField(buf, i) == Ok(Step(f, i + |EncodeField(f)|))
  {
    hide ReadVarint, EncodeVarint, Slice, At;
    var tag, value := EncodeVarint(8 * f.number + WireOf(f.value)), EncodeValue(f.value);
    AtSplit(buf, i, tag, value);
    VarintRoundTrip(buf, i, 8 * f.number + WireOf(f.value));
    TagParts(f.number, WireOf(f.value));
    var at := i + |tag|;
    VarintNonEmpty(8 * f.number + WireOf(f.value));
    AtInside(buf, i, tag);
    match f.value {
      case Number(n) => VarintRoundTrip(buf, at, n);
      case Fixed64(b) => SliceIs(buf, at, b);
      case Delimited(b) =>
        AtSplit(buf, at, EncodeVarint(|b|), b);
        VarintRoundTrip(buf, at, |b|);
        SliceIs(buf, at + |EncodeVarint(|b|)|, b);
      case Fixed32(b) => SliceIs(buf, at, b);
    }
  }

  lemma VarintNonEmpty(n: nat)
    ensures |EncodeVarint(n)| > 0
  {
  }

  /** Iterating over encoded fields followed by anything yields them, and then what follows. */
  lemma {:induction false} FieldsRoundTrip(buf: Bytes, i: nat, fs: seq<Field>)
    requires (forall f :: f in fs ==> WellFormed(f)) && At(buf, i, EncodeFields(fs))
    ensures var rest := ReadFields(buf, i + |EncodeFields(fs)|);
            ReadFields(buf, i) == Fields(fs + rest.fields, rest.error)
    decreases |fs|
  {
    hide ReadField, WellFormed, EncodeField, At;
    if fs == [] {
      assert [] + ReadFields(buf, i).fields == ReadFields(buf, i).fields;
    } else {
      AtSplit(buf, i, EncodeField(fs[0]), EncodeFields(fs[1..]));
      FieldRoundTrip(buf, i, fs[0]);
      AtInside(buf, i, EncodeField(fs[0]));
      FieldsRoundTrip(buf, i + |EncodeField(fs[0])|, fs[1..]);
      var rest := ReadFields(buf, i + |EncodeFields(fs)|);
      assert fs == [fs[0]] + fs[1..];
      assert [fs[0]] + (fs[1..] + rest.fields) == fs + rest.fields;
    }
  }

  lemma AtInside(buf: Bytes, i: nat, part: Bytes)
    requires At(buf, i, part) && |part| > 0
    ensures i < |buf|
  {
  }

  /** Iterating over a concatenation, the front well formed, is the concatenation of the iterations. */
  lemma ReadConcat(fs: seq<Field>, tail: Bytes)
    requires forall f :: f in fs ==> WellFormed(f)
    ensures var rest := ReadFields(tail, 0);
            ReadFields(EncodeFields(fs) + tail, 0) == Fields(fs + rest.fields, rest.error)
  {
    hide ReadFields, EncodeFields, WellFormed;
    var front := EncodeFields(fs);
    assert (front + tail)[0..|front|] == front;
    FieldsRoundTrip(front + tail, 0, fs);
    ReadShift(front, tail, 0);
  }

  lemma {:induction false} VarintShift(front: Bytes, tail: Bytes, i: nat)
    ensures var a, b := ReadVarint(front + tail, |front| + i), ReadVarint(tail, i);
            a == if b.Err? then b else Ok(Varint(b.value.value, |front| + b.value.next))
    decreases |tail| - i
  {
    if i < |tail| {
      assert (front + tail)[|front| + i] == tail[i];
      VarintShift(front, tail, i + 1);
    }
  }

  lemma SliceShift(front: Bytes, tail: Bytes, i: nat, n: nat)
    ensures Slice(front + tail, |front| + i, n) == Slice(tail, i, n)
  {
  }

  lemma FieldShift(front: Bytes, tail: Bytes, i: nat)
    requires i < |tail|
    ensures var a, b := ReadField(front + tail, |front| + i), ReadField(tail, i);
            a == if b.Err? then b else Ok(Step(b.value.field, |front| + b.value.next))
  {
    hide ReadVarint, Slice;
    VarintShift(front, tail, i);
    var tag := ReadVarint(tail, i);
    if tag.Ok? {
      var at := tag.value.next;
      VarintShift(front, tail, at);
      SliceShift(front, tail, at, 8);
      SliceShift(front, tail, at, 4);
      var n := ReadVarint(tail, at);
      if n.Ok? {
        SliceShift(front, tail, n.value.next, n.value.value);
      }
    }
  }

  lemma {:induction false} ReadShift(front: Bytes, tail: Bytes, i: nat)
    ensures ReadFields(front + tail, |front| + i) == ReadFields(tail, i)
    decreases |tail| - i
  {
    hide ReadField;
    if i < |tail| {
      FieldShift(front, tail, i);
      var step := ReadField(tail, i);
      if step.Ok? {
        ReadShift(front, tail, step.value.next);
      }
    }
  }

  /** Encoded fields, and nothing else, are read back without an error. */
  lemma EncodedAlone(fs: seq<Field>)
    requires forall f :: f in fs ==> WellFormed(f)
    ensures ReadFields(EncodeFields(fs), 0) == Fields(fs, None)
  {
    hide EncodeFields, WellFormed;
    ReadConcat(fs, []);
    assert EncodeFields(fs) + [] == EncodeFields(fs);
    assert fs + [] == fs;
  }

  // Damaged buffers

  /** A varint that never comes to an end. */
  lemma {:induction false} Unfinished(buf: Bytes, i: nat)
    requires forall k :: i <= k < |buf| ==> buf[k] >= 128
    ensures ReadVarint(buf, i) == Err(EndOfBuffer)
    decreases |buf| - i
  {
    if i < |buf| {
      Unfinished(buf, i + 1);
    }
  }

  /** A tag that is cut off ends the iteration with an error. */
  lemma CutOffTag(part: Bytes)
    requires part != [] && forall k :: 0 <= k < |part| ==> part[k] >= 128
    ensures ReadFields(part, 0) == Fields([], Some(EndOfBuffer))
  {
    Unfinished(part, 0);
    hide ReadVarint;
  }

  /** So does a number or a length that is cut off behind its tag. */
  lemma CutOffNumber(number: nat, wire: nat, part: Bytes)
    requires wire in {0, 2} && forall k :: 0 <= k < |part| ==> part[k] >= 128
    ensures ReadFields(EncodeVarint(8 * number + wire) + part, 0) == Fields([], Some(EndOfBuffer))
  {
    TagThen(number, wire, part);
    UnfinishedBehind(EncodeVarint(8 * number + wire), part);
    hide ReadVarint, EncodeVarint, Slice;
  }

  lemma UnfinishedBehind(tag: Bytes, part: Bytes)
    requires forall k :: 0 <= k < |part| ==> part[k] >= 128
    ensures ReadVarint(tag + part, |tag|) == Err(EndOfBuffer)
  {
    forall k | |tag| <= k < |tag + part| ensures (tag + part)[k] >= 128 {
      assert (tag + part)[k] == part[k - |tag|];
    }
    Unfinished(tag + part, |tag|);
  }

  /** A tag stands in front of whatever follows it. */
  lemma TagThen(number: nat, wire: nat, rest: Bytes)
    requires wire < 8
    ensures var tag := EncodeVarint(8 * number + wire);
            && |tag| > 0
            && ReadVarint(tag + rest, 0) == Ok(Varint(8 * number + wire, |tag|))
            && (8 * number + wire) / 8 == number && (8 * number + wire) % 8 == wire
  {
    var tag := EncodeVarint(8 * number + wire);
    assert At(tag + rest, 0, tag);
    VarintRoundTrip(tag + rest, 0, 8 * number + wire);
    TagParts(number, wire);
  }

  /** The wire types that are not in use end the iteration with an error. */
  lemma UnusedWire(number: nat, wire: nat, rest: Bytes)
    requires wire in {3, 4, 6, 7}
    ensures ReadFields(EncodeVarint(8 * number + wire) + rest, 0) == Fields([], Some(UnsupportedWire))
  {
    TagThen(number, wire, rest);
    hide ReadVarint, EncodeVarint, Slice;
  }

  /** A fixed-size value at the end of the buffer comes out short, without an error. */
  lemma ShortFixed(number: nat, part: Bytes)
    ensures |part| < 4 ==> ReadFields(EncodeVarint(8 * number + 5) + part, 0) == Fields([Field(number, Fixed32(part))], None)
    ensures |part| < 8 ==> ReadFields(EncodeVarint(8 * number + 1) + part, 0) == Fields([Field(number, Fixed64(part))], None)
  {
    TagThen(number, 5, part);
    TagThen(number, 1, part);
    hide ReadVarint, EncodeVarint;
    forall tag: Bytes, n: nat | |part| < n ensures Slice(tag + part, |tag|, n) == part {
    }
    hide Slice;
    assert forall f: Field :: [f] + [] == [f];
  }

  // Examples of the encoding

  /** 300 is AC 02. */
  lemma VarintExample()
    ensures EncodeVarint(300) == [0xAC, 0x02] && ReadVarint([0xAC, 0x02], 0) == Ok(Varint(300, 2))
  {
    assert EncodeVarint(2) == [2];
    VarintRoundTrip([0xAC, 0x02], 0, 300);
  }

  /** 08 96 01 is field 1 with the number 150; 12 02 68 69 is field 2 with two bytes. */
  lemma FieldExample()
    ensures EncodeField(Field(1, Number(150))) == [0x08, 0x96, 0x01]
    ensures EncodeField(Field(2, Delimited([0x68, 0x69]))) == [0x12, 0x02, 0x68, 0x69]
    ensures EncodeField(Field(1, Fixed64([1, 2, 3, 4, 5, 6, 7, 8]))) == [0x09, 1, 2, 3, 4, 5, 6, 7, 8]
    ensures EncodeField(Field(1, Fixed32([1, 2, 3, 4]))) == [0x0D, 1, 2, 3, 4]
  {
    assert EncodeVarint(1) == [1];
    assert EncodeVarint(150) == [0x96] + EncodeVarint(1);
  }
}
