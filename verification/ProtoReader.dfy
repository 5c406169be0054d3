/** A general proto3 reader (Protocol Buffers Encoding guide): any sequence of
    fields, unknown ones included. It knows nothing about the exporter. */
module ProtoReader {
  import opened Bytes
  import opened Varint

  datatype Field =
    | VarintField(num: nat, v: uint64)
    | Fixed64Field(num: nat, bits: uint64)
    | LenField(num: nat, data: bytes)
    | Fixed32Field(num: nat, word: nat)

  const MAX_FIELD_NUMBER := 0x1FFF_FFFF

  /** One field from the front of `b`, and how many bytes it took. */
  function ReadField(b: bytes): (r: Option<(Field, nat)>)
    ensures r.Some? ==> 0 < r.value.1 <= |b|
  {
    match ReadUvarint(b)
    case None => None
    case Some((tag, n)) =>
      if !(1 <= tag / 8 <= MAX_FIELD_NUMBER) then None else ReadPayload(tag / 8, tag % 8, b, n)
  }

  function ReadPayload(num: nat, wire: nat, b: bytes, n: nat): (r: Option<(Field, nat)>)
    requires 0 < n <= |b|
    ensures r.Some? ==> n <= r.value.1 <= |b|
  {
    var rest := b[n..];
    if wire == 0 then
      match ReadUvarint(rest)
      case None => None
      case Some((v, m)) => Some((VarintField(num, v), n + m))
    else if wire == 1 then
      if |rest| < 8 then None
      else Some((Fixed64Field(num, FixedValue(rest[..8], 8)), n + 8))
    else if wire == 2 then
      match ReadUvarint(rest)
      case None => None
      case Some((len, m)) =>
        if len > |rest| - m then None
        else Some((LenField(num, rest[m..m + len]), n + m + len))
    else if wire == 5 then
      if |rest| < 4 then None
      else Some((Fixed32Field(num, FromLittleEndian(rest[..4])), n + 4))
    else None  // groups are not proto3
  }

  function FixedValue(b: bytes, n: nat): uint64
    requires |b| == n == 8
  {
    LittleEndianBound(b);
    FromLittleEndian(b)
  }

  lemma {:induction false} LittleEndianBound(b: bytes)
    ensures FromLittleEndian(b) < Pow(0x100, |b|)
    ensures |b| == 8 ==> FromLittleEndian(b) < TWO_64
  {
    if b != [] {
      LittleEndianBound(b[1..]);
    }
    if |b| == 8 {
      Pow256();
    }
  }

  lemma Pow256()
    ensures Pow(0x100, 8) == TWO_64
  {
    assert Pow(0x100, 2) == 0x1_0000;
    assert Pow(0x100, 4) == 0x1_0000_0000;
    assert Pow(0x100, 6) == 0x1_0000 * Pow(0x100, 4);
  }

  /** A whole message: every byte belongs to some field, or the message is malformed. */
  function ReadFields(b: bytes): Option<seq<Field>>
    decreases |b|
  {
    if b == [] then Some([])
    else match ReadField(b)
      case None => None
      case Some((f, n)) =>
        match ReadFields(b[n..])
        case None => None
        case Some(fs) => Some([f] + fs)
  }

  /** proto3 singular fields: the last occurrence of the right wire type wins. */
  function LastLen(fs: seq<Field>, num: nat): bytes {
    if fs == [] then []
    else if fs[|fs| - 1].LenField? && fs[|fs| - 1].num == num then fs[|fs| - 1].data
    else LastLen(fs[..|fs| - 1], num)
  }

  function LastFixed64(fs: seq<Field>, num: nat): uint64 {
    if fs == [] then 0
    else if fs[|fs| - 1].Fixed64Field? && fs[|fs| - 1].num == num then fs[|fs| - 1].bits
    else LastFixed64(fs[..|fs| - 1], num)
  }

  function LastVarint(fs: seq<Field>, num: nat): uint64 {
    if fs == [] then 0
    else if fs[|fs| - 1].VarintField? && fs[|fs| - 1].num == num then fs[|fs| - 1].v
    else LastVarint(fs[..|fs| - 1], num)
  }

  /** Repeated message fields: every occurrence, in order. */
  function AllLen(fs: seq<Field>, num: nat): seq<bytes> {
    if fs == [] then []
    else (if fs[0].LenField? && fs[0].num == num then [fs[0].data] else []) + AllLen(fs[1..], num)
  }
}
