/** The bytes of a Prometheus remote_write request, and the proof that a general
    proto3 reader takes them back to what was encoded. */
module RemoteWriteCodec {
  import opened Bytes
  import opened ProtoReader
  import opened Varint

  /** `label`; Go strings are byte strings. */
  datatype Label = Label(name: bytes, value: bytes)

  /** `sample`; `value` is the float64's bit pattern (`math.Float64bits`). */
  datatype Sample = Sample(metric: bytes, labels: seq<Label>, value: uint64, global: bool)

  /** Wire messages: `Sample` and `TimeSeries` of the schema. */
  datatype Point = Point(bits: uint64, timestamp: int64)
  datatype TimeSeries = TimeSeries(labels: seq<Label>, points: seq<Point>)

  // ---------------------------------------------------------------------
  // Decoding the schema's messages
  // ---------------------------------------------------------------------

  function DecodeLabel(b: bytes): Option<Label> {
    match ReadFields(b)
    case None => None
    case Some(fs) => Some(Label(LastLen(fs, 1), LastLen(fs, 2)))
  }

  function DecodePoint(b: bytes): Option<Point> {
    match ReadFields(b)
    case None => None
    case Some(fs) => Some(Point(LastFixed64(fs, 1), ToInt64(LastVarint(fs, 2))))
  }

  function DecodeAll<T>(items: seq<bytes>, decode: bytes -> Option<T>): Option<seq<T>> {
    if items == [] then Some([])
    else match (decode(items[0]), DecodeAll(items[1..], decode))
      case (Some(x), Some(xs)) => Some([x] + xs)
      case _ => None
  }

  function DecodeSeries(b: bytes): Option<TimeSeries> {
    match ReadFields(b)
    case None => None
    case Some(fs) =>
      match (DecodeAll(AllLen(fs, 1), DecodeLabel), DecodeAll(AllLen(fs, 2), DecodePoint))
      case (Some(ls), Some(ps)) => Some(TimeSeries(ls, ps))
      case _ => None
  }

  function DecodeRequest(b: bytes): Option<seq<TimeSeries>> {
    match ReadFields(b)
    case None => None
    case Some(fs) => DecodeAll(AllLen(fs, 1), DecodeSeries)
  }

  // ---------------------------------------------------------------------
  // What the encoder's helpers emit
  // ---------------------------------------------------------------------

  function Tag(field: nat, wire: nat): bytes
    requires 1 <= field <= 2 && wire < 8
  {
    Uvarint(field * 8 + wire)
  }

  function LenFieldBytes(field: nat, data: bytes): bytes
    requires 1 <= field <= 2
  {
    Tag(field, 2) + Uvarint(Len64(data)) + data
  }

  function LabelBytes(l: Label): bytes {
    LenFieldBytes(1, l.name) + LenFieldBytes(2, l.value)
  }

  function PointBytes(p: Point): bytes {
    Tag(1, 1) + LittleEndian(p.bits, 8) + (Tag(2, 0) + Uvarint(ToUint64(p.timestamp)))
  }

  /** Consecutive records of one repeated field. */
  function Records(field: nat, items: seq<bytes>): bytes
    requires 1 <= field <= 2
  {
    if items == [] then [] else LenFieldBytes(field, items[0]) + Records(field, items[1..])
  }

  function LabelItems(ls: seq<Label>): (items: seq<bytes>)
    ensures |items| == |ls|
  {
    seq(|ls|, i requires 0 <= i < |ls| => LabelBytes(ls[i]))
  }

  function SeriesBytes(ls: seq<Label>, p: Point): bytes {
    Records(1, LabelItems(ls)) + LenFieldBytes(2, PointBytes(p))
  }

  function SeriesItems(samples: seq<Sample>, orders: seq<seq<Label>>, tsMillis: int64): (items: seq<bytes>)
    requires |orders| == |samples|
    ensures |items| == |samples|
  {
    seq(|samples|, i requires 0 <= i < |samples| => SeriesBytes(orders[i], Point(samples[i].value, tsMillis)))
  }

  /** The uncompressed request for samples whose label lists were ordered as `orders`. */
  function RequestBytes(samples: seq<Sample>, orders: seq<seq<Label>>, tsMillis: int64): bytes
    requires |orders| == |samples|
  {
    Records(1, SeriesItems(samples, orders, tsMillis))
  }

  // ---------------------------------------------------------------------
  // Reading back what was written
  // ---------------------------------------------------------------------

  lemma ReadLenPayload(field: nat, data: bytes, rest: bytes, b: bytes, n: nat)
    requires |data| < TWO_63 && 0 < n <= |b| && b[n..] == Uvarint(|data|) + (data + rest)
    ensures ReadPayload(field, 2, b, n) == Some((LenField(field, data), n + |Uvarint(|data|)| + |data|))
  {
    hide Uvarint;
    hide ReadUvarint;
    var len := Uvarint(|data|);
    UvarintRoundTrip(|data|, data + rest);
    Middle(len, data, rest);
  }

  lemma Middle(a: bytes, b: bytes, c: bytes)
    ensures (a + (b + c))[|a|..|a| + |b|] == b && (a + (b + c))[|a|..] == b + c
  {
  }

  lemma LenFieldText(field: nat, data: bytes, rest: bytes)
    requires 1 <= field <= 2 && |data| < TWO_63
    ensures LenFieldBytes(field, data) + rest
         == Uvarint(field * 8 + 2) + (Uvarint(|data|) + (data + rest))
    ensures |LenFieldBytes(field, data)| == |Uvarint(field * 8 + 2)| + |Uvarint(|data|)| + |data|
  {
    hide Uvarint;
  }

  lemma ReadFieldIs(b: bytes, num: nat, wire: nat, n: nat)
    requires wire < 8 && 1 <= num <= MAX_FIELD_NUMBER && 0 < n <= |b|
    requires ReadUvarint(b) == Some((num * 8 + wire, n))
    ensures ReadField(b) == ReadPayload(num, wire, b, n)
  {
    hide ReadUvarint;
    hide ReadPayload;
  }

  lemma ReadLenFieldBytes(field: nat, data: bytes, rest: bytes)
    requires 1 <= field <= 2 && |data| < TWO_63
    ensures ReadField(LenFieldBytes(field, data) + rest)
         == Some((LenField(field, data), |LenFieldBytes(field, data)|))
  {
    hide LenFieldBytes;
    hide Uvarint;
    hide ReadUvarint;
    hide ReadPayload;
    hide ReadField;
    var tag, more := Uvarint(field * 8 + 2), Uvarint(|data|) + (data + rest);
    LenFieldText(field, data, rest);
    UvarintRoundTrip(field * 8 + 2, more);
    Middle(tag, more, []);
    assert more + [] == more;
    ReadFieldIs(tag + more, field, 2, |tag|);
    ReadLenPayload(field, data, rest, tag + more, |tag|);
  }

  lemma ReadFieldsLen(field: nat, data: bytes, rest: bytes)
    requires 1 <= field <= 2 && |data| < TWO_63
    requires ReadFields(rest).Some?
    ensures ReadFields(LenFieldBytes(field, data) + rest)
         == Some([LenField(field, data)] + ReadFields(rest).value)
  {
    ReadLenFieldBytes(field, data, rest);
    assert (LenFieldBytes(field, data) + rest)[|LenFieldBytes(field, data)|..] == rest;
  }

  lemma LenFieldLonger(field: nat, data: bytes)
    requires 1 <= field <= 2
    ensures |data| < |LenFieldBytes(field, data)|
  {
    UvarintAtMostTen(field * 8 + 2);
  }

  function LenFields(field: nat, items: seq<bytes>): (fs: seq<Field>)
    ensures |fs| == |items|
  {
    seq(|items|, i requires 0 <= i < |items| => LenField(field, items[i]))
  }

  lemma LenFieldsCons(field: nat, items: seq<bytes>)
    requires items != []
    ensures LenFields(field, items) == [LenField(field, items[0])] + LenFields(field, items[1..])
  {
  }

  lemma {:induction false} ReadRecords(field: nat, items: seq<bytes>, rest: bytes, fs: seq<Field>)
    requires 1 <= field <= 2 && |Records(field, items)| < TWO_63
    requires ReadFields(rest) == Some(fs)
    ensures ReadFields(Records(field, items) + rest) == Some(LenFields(field, items) + fs)
  {
    hide ReadField;
    hide LenFieldBytes;
    if items == [] {
      assert Records(field, items) + rest == rest;
      NoLenFields(field, items, fs);
    } else {
      hide LenFields;
      var more := Records(field, items[1..]) + rest;
      LenFieldLonger(field, items[0]);
      ReadRecords(field, items[1..], rest, fs);
      ReadFieldsLen(field, items[0], more);
      assert Records(field, items) + rest == LenFieldBytes(field, items[0]) + more;
      LenFieldsCons(field, items);
      FieldsRegroup(LenField(field, items[0]), LenFields(field, items[1..]), fs);
    }
  }

  lemma AllLenCons(f: Field, fs: seq<Field>, num: nat)
    ensures AllLen([f] + fs, num) == (if f.LenField? && f.num == num then [f.data] else []) + AllLen(fs, num)
  {
    assert ([f] + fs)[1..] == fs;
  }

  lemma NoLenFields(field: nat, items: seq<bytes>, tail: seq<Field>)
    requires items == []
    ensures LenFields(field, items) + tail == tail
  {
  }

  lemma FieldsRegroup(f: Field, fs: seq<Field>, tail: seq<Field>)
    ensures [f] + fs + tail == [f] + (fs + tail)
  {
  }

  lemma ItemsRegroup(items: seq<bytes>, tail: seq<bytes>)
    requires items != []
    ensures [items[0]] + (items[1..] + tail) == items + tail
  {
  }

  /** Selecting field `num` from records of one field number, then from what follows. */
  lemma {:induction false} AllLenOfRecords(field: nat, items: seq<bytes>, tail: seq<Field>, num: nat)
    ensures AllLen(LenFields(field, items) + tail, num)
         == (if num == field then items else []) + AllLen(tail, num)
  {
    hide *;
    if items == [] {
      NoLenFields(field, items, tail);
      assert items + AllLen(tail, num) == [] + AllLen(tail, num) == AllLen(tail, num);
    } else {
      var first := LenField(field, items[0]);
      AllLenOfRecords(field, items[1..], tail, num);
      LenFieldsCons(field, items);
      FieldsRegroup(first, LenFields(field, items[1..]), tail);
      AllLenCons(first, LenFields(field, items[1..]) + tail, num);
      ItemsRegroup(items, AllLen(tail, num));
      assert [] + AllLen(tail, num) == AllLen(tail, num);
    }
  }

  lemma LabelRoundTrip(l: Label)
    requires |LabelBytes(l)| < TWO_63
    ensures DecodeLabel(LabelBytes(l)) == Some(l)
  {
    hide ReadField;
    hide LenFieldBytes;
    LenFieldLonger(1, l.name);
    LenFieldLonger(2, l.value);
    assert LenFieldBytes(2, l.value) + [] == LenFieldBytes(2, l.value);
    ReadFieldsLen(2, l.value, []);
    ReadFieldsLen(1, l.name, LenFieldBytes(2, l.value));
    var name, value := LenField(1, l.name), LenField(2, l.value);
    assert [value] + [] == [value];
    var fs := [name] + [value];
    assert ReadFields(LabelBytes(l)) == Some(fs);
    assert fs[..1] == [name];
    assert LastLen(fs, 1) == LastLen(fs[..1], 1) == l.name;
  }

  lemma ReadFixed64(bits: uint64, rest: bytes)
    ensures ReadField(Tag(1, 1) + LittleEndian(bits, 8) + rest) == Some((Fixed64Field(1, bits), 9))
    ensures |Tag(1, 1)| == 1
  {
    var b := Tag(1, 1) + LittleEndian(bits, 8) + rest;
    UvarintRoundTrip(9, LittleEndian(bits, 8) + rest);
    assert b == Uvarint(9) + (LittleEndian(bits, 8) + rest);
    assert b[1..][..8] == LittleEndian(bits, 8);
    Pow256();
    LittleEndianRoundTrip(bits, 8);
  }

  lemma ReadVarintField(v: uint64, rest: bytes)
    ensures ReadField(Tag(2, 0) + Uvarint(v) + rest) == Some((VarintField(2, v), |Tag(2, 0) + Uvarint(v)|))
  {
    var b := Tag(2, 0) + Uvarint(v) + rest;
    assert b == Uvarint(16) + (Uvarint(v) + rest);
    UvarintRoundTrip(16, Uvarint(v) + rest);
    assert b[|Uvarint(16)|..] == Uvarint(v) + rest;
    UvarintRoundTrip(v, rest);
  }

  lemma PointRoundTrip(p: Point)
    ensures DecodePoint(PointBytes(p)) == Some(p)
    ensures |PointBytes(p)| <= 38
  {
    var v := ToUint64(p.timestamp);
    var stamp := Tag(2, 0) + Uvarint(v);
    ReadVarintField(v, []);
    assert stamp + [] == stamp;
    UvarintRoundTrip(v, []);
    UvarintAtMostTen(16);
    ReadFixed64(p.bits, stamp);
    assert PointBytes(p)[9..] == stamp;
    hide ReadField;
    assert ReadFields(stamp[|stamp|..]) == Some([]);
    assert [VarintField(2, v)] + [] == [VarintField(2, v)];
    assert ReadFields(stamp) == Some([VarintField(2, v)]);
    var fs := [Fixed64Field(1, p.bits)] + [VarintField(2, v)];
    assert ReadFields(PointBytes(p)) == Some(fs);
    SignedRoundTrip(p.timestamp, []);
    assert fs[..1] == [Fixed64Field(1, p.bits)];
    assert LastFixed64(fs, 1) == LastFixed64(fs[..1], 1) == p.bits;
  }

  lemma {:induction false} RecordsLonger(field: nat, items: seq<bytes>, i: nat)
    requires 1 <= field <= 2 && i < |items|
    ensures |items[i]| < |Records(field, items)|
  {
    LenFieldLonger(field, items[0]);
    if i > 0 {
      RecordsLonger(field, items[1..], i - 1);
    }
  }

  lemma {:induction false} DecodeAllPointwise<T>(items: seq<bytes>, decode: bytes -> Option<T>, xs: seq<T>)
    requires |items| == |xs|
    requires forall i :: 0 <= i < |items| ==> decode(items[i]) == Some(xs[i])
    ensures DecodeAll(items, decode) == Some(xs)
  {
    if items != [] {
      DecodeAllPointwise(items[1..], decode, xs[1..]);
      assert xs == [xs[0]] + xs[1..];
    }
  }

  lemma SeriesRoundTrip(ls: seq<Label>, p: Point)
    requires |SeriesBytes(ls, p)| < TWO_63
    ensures DecodeSeries(SeriesBytes(ls, p)) == Some(TimeSeries(ls, [p]))
  {
    hide ReadField;
    hide LenFieldBytes;
    hide PointBytes;
    var items := LabelItems(ls);
    var tail := [LenField(2, PointBytes(p))];
    PointRoundTrip(p);
    assert LenFieldBytes(2, PointBytes(p)) + [] == LenFieldBytes(2, PointBytes(p));
    ReadFieldsLen(2, PointBytes(p), []);
    assert tail + [] == tail;
    ReadRecords(1, items, LenFieldBytes(2, PointBytes(p)), tail);
    AllLenOfRecords(1, items, tail, 1);
    AllLenOfRecords(1, items, tail, 2);
    LabelsDecode(ls);
    DecodeAllPointwise([PointBytes(p)], DecodePoint, [p]);
    assert AllLen(tail, 1) == [] && AllLen(tail, 2) == [PointBytes(p)];
    assert items + [] == items && [] + [PointBytes(p)] == [PointBytes(p)];
  }

  lemma LabelsDecode(ls: seq<Label>)
    requires |Records(1, LabelItems(ls))| < TWO_63
    ensures DecodeAll(LabelItems(ls), DecodeLabel) == Some(ls)
  {
    forall i | 0 <= i < |ls| ensures DecodeLabel(LabelItems(ls)[i]) == Some(ls[i]) {
      RecordsLonger(1, LabelItems(ls), i);
      LabelRoundTrip(ls[i]);
    }
    DecodeAllPointwise(LabelItems(ls), DecodeLabel, ls);
  }

  /** The series a request for `samples` should carry, label lists ordered as `orders`. */
  function SeriesFor(samples: seq<Sample>, orders: seq<seq<Label>>, tsMillis: int64): (r: seq<TimeSeries>)
    requires |orders| == |samples|
    ensures |r| == |samples|
  {
    seq(|samples|, i requires 0 <= i < |samples| => TimeSeries(orders[i], [Point(samples[i].value, tsMillis)]))
  }

  /** The whole request decodes, every byte consumed, to one series per sample in
      order, each with exactly the label list it was given and its one point. A Go
      slice is never longer than `TWO_63 - 1` bytes. */
  lemma RequestRoundTrip(samples: seq<Sample>, orders: seq<seq<Label>>, tsMillis: int64)
    requires |orders| == |samples|
    requires |RequestBytes(samples, orders, tsMillis)| < TWO_63
    ensures DecodeRequest(RequestBytes(samples, orders, tsMillis)) == Some(SeriesFor(samples, orders, tsMillis))
  {
    hide ReadField;
    var items := SeriesItems(samples, orders, tsMillis);
    ReadRecords(1, items, [], []);
    assert Records(1, items) + [] == Records(1, items);
    AllLenOfRecords(1, items, [], 1);
    assert LenFields(1, items) + [] == LenFields(1, items) && items + [] == items;
    forall i | 0 <= i < |items|
      ensures DecodeSeries(items[i]) == Some(SeriesFor(samples, orders, tsMillis)[i])
    {
      RecordsLonger(1, items, i);
      SeriesRoundTrip(orders[i], Point(samples[i].value, tsMillis));
    }
    DecodeAllPointwise(items, DecodeSeries, SeriesFor(samples, orders, tsMillis));
  }

  // ---------------------------------------------------------------------
  // The bytes themselves
  // ---------------------------------------------------------------------

  lemma ShortField(field: nat, data: bytes)
    requires 1 <= field <= 2 && |data| < 0x80
    ensures LenFieldBytes(field, data) == [8 * field + 2, |data|] + data
  {
  }

  /** Short messages byte by byte: in a label and a request the strings and messages of
      fields 1 and 2, in a point a little-endian double and a varint. */
  lemma WireFormat(l: Label, p: Point)
    requires |l.name| < 0x30 && |l.value| < 0x30 && 0 <= p.timestamp < 0x80
    ensures LabelBytes(l) == [0x0A, |l.name|] + l.name + ([0x12, |l.value|] + l.value)
    ensures PointBytes(p) == [0x09] + LittleEndian(p.bits, 8) + [0x10, p.timestamp]
    ensures SeriesBytes([l], p) ==
      [0x0A, |LabelBytes(l)|] + LabelBytes(l) + ([0x12, |PointBytes(p)|] + PointBytes(p))
  {
    ShortField(1, l.name);
    ShortField(2, l.value);
    assert Tag(1, 1) == [0x09] && Tag(2, 0) == [0x10] && Uvarint(ToUint64(p.timestamp)) == [p.timestamp];
    assert [0x10] + [p.timestamp] == [0x10, p.timestamp];
    hide Tag;
    hide Uvarint;
    hide LenFieldBytes;
    ShortField(1, LabelBytes(l));
    ShortField(2, PointBytes(p));
    OneRecord(1, LabelBytes(l));
    assert LabelItems([l]) == [LabelBytes(l)];
  }

  lemma OneRecord(field: nat, item: bytes)
    requires 1 <= field <= 2
    ensures Records(field, [item]) == LenFieldBytes(field, item)
  {
    hide LenFieldBytes;
    assert [item][1..] == [] && LenFieldBytes(field, item) + [] == LenFieldBytes(field, item);
  }

  lemma RequestFormat(s: Sample, order: seq<Label>, tsMillis: int64)
    requires |SeriesBytes(order, Point(s.value, tsMillis))| < 0x80
    ensures var series := SeriesBytes(order, Point(s.value, tsMillis));
      RequestBytes([s], [order], tsMillis) == [0x0A, |series|] + series
  {
    var series := SeriesBytes(order, Point(s.value, tsMillis));
    ShortField(1, series);
    OneRecord(1, series);
    assert SeriesItems([s], [order], tsMillis) == [series];
  }
}
