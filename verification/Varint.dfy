/** Base 128 varints (Protocol Buffers Encoding guide, "Base 128 Varints"):
    the exporter's writer and an independent reader. */
module Varint {
  import opened Bytes

  /** What `appendUvarint` emits for `v`: `byte(v)|0x80` while more groups follow. */
  function Uvarint(v: uint64): (b: bytes)
    decreases v
  {
    if v >= 0x80 then [v % 0x80 + 0x80] + Uvarint(v / 0x80) else [v]
  }

  /** The exporter's loop, shifting `v` right by seven bits at a time. */
  method AppendUvarint(b: bytes, v: uint64) returns (r: bytes)
    ensures r == b + Uvarint(v)
  {
    r := b;
    var w := v;
    while w >= 0x80
      invariant r + Uvarint(w) == b + Uvarint(v)
      decreases w
    {
      r := r + [w % 0x80 + 0x80];
      w := w / 0x80;
    }
    r := r + [w];
  }

  /** Little-endian seven-bit groups up to the first byte below 0x80, at most
      `budget` of them; returns the number and how many bytes it took. */
  function ReadGroups(b: bytes, budget: nat): (r: Option<(nat, nat)>)
    ensures r.Some? ==> 0 < r.value.1 <= |b| && r.value.1 <= budget
    decreases |b|
  {
    if b == [] || budget == 0 then None
    else if b[0] < 0x80 then Some((b[0], 1))
    else match ReadGroups(b[1..], budget - 1)
      case None => None
      case Some((v, n)) => Some((b[0] - 0x80 + 0x80 * v, n + 1))
  }

  /** A conforming 64-bit varint reader: ten bytes at most, overflow is an error. */
  function ReadUvarint(b: bytes): (r: Option<(uint64, nat)>)
    ensures r.Some? ==> 0 < r.value.1 <= |b| && r.value.1 <= 10
  {
    match ReadGroups(b, 10)
    case None => None
    case Some((v, n)) => if v < TWO_64 then Some((v, n)) else None
  }

  lemma {:induction false} UvarintLength(v: uint64, k: nat)
    requires k > 0 && v < Pow(0x80, k)
    ensures 0 < |Uvarint(v)| <= k
    decreases k
  {
    if v >= 0x80 {
      assert Pow(0x80, 1) == 0x80;
      UvarintLength(v / 0x80, k - 1);
    }
  }

  lemma UvarintAtMostTen(v: uint64)
    ensures 0 < |Uvarint(v)| <= 10
  {
    assert Pow(0x80, 2) == 0x4000;
    assert Pow(0x80, 4) == 0x1000_0000;
    assert Pow(0x80, 6) == 0x4000 * Pow(0x80, 4);
    assert Pow(0x80, 8) == 0x4000 * Pow(0x80, 6);
    assert Pow(0x80, 10) == 0x4000 * Pow(0x80, 8);
    UvarintLength(v, 10);
  }

  lemma {:induction false} ReadGroupsOfUvarint(v: uint64, suffix: bytes, budget: nat)
    requires |Uvarint(v)| <= budget
    ensures ReadGroups(Uvarint(v) + suffix, budget) == Some((v, |Uvarint(v)|))
    decreases v
  {
    if v >= 0x80 {
      ReadGroupsOfUvarint(v / 0x80, suffix, budget - 1);
      assert (Uvarint(v) + suffix)[1..] == Uvarint(v / 0x80) + suffix;
    }
  }

  /** Round trip with exact consumption: whatever follows the varint is left alone. */
  lemma UvarintRoundTrip(v: uint64, suffix: bytes)
    ensures ReadUvarint(Uvarint(v) + suffix) == Some((v, |Uvarint(v)|))
    ensures 0 < |Uvarint(v)| <= 10
  {
    UvarintAtMostTen(v);
    ReadGroupsOfUvarint(v, suffix, 10);
  }

  lemma {:induction false} GroupsNoShorter(b: bytes, budget: nat)
    requires ReadGroups(b, budget).Some? && ReadGroups(b, budget).value.0 < TWO_64
    ensures |Uvarint(ReadGroups(b, budget).value.0)| <= ReadGroups(b, budget).value.1
    decreases budget
  {
    if b[0] >= 0x80 {
      var v := ReadGroups(b, budget).value.0;
      assert v / 0x80 == ReadGroups(b[1..], budget - 1).value.0;
      GroupsNoShorter(b[1..], budget - 1);
      if v < 0x80 {
        assert |Uvarint(v)| == 1;
      }
    }
  }

  /** Minimality: no byte string a reader takes for `v` is shorter than the writer's. */
  lemma UvarintMinimal(b: bytes)
    requires ReadUvarint(b).Some?
    ensures |Uvarint(ReadUvarint(b).value.0)| <= ReadUvarint(b).value.1
  {
    GroupsNoShorter(b, 10);
  }

  /** A value of at least 128^k needs more than k bytes. */
  lemma {:induction false} UvarintLowerBound(v: uint64, k: nat)
    requires v >= Pow(0x80, k)
    ensures |Uvarint(v)| > k
    decreases k
  {
    if k > 0 {
      assert Pow(0x80, k - 1) >= 1;
      UvarintLowerBound(v / 0x80, k - 1);
    }
  }

  /** A signed field value survives the cast to uint64 and back, negatives included. */
  lemma SignedRoundTrip(v: int64, suffix: bytes)
    ensures ReadUvarint(Uvarint(ToUint64(v)) + suffix) == Some((ToUint64(v), |Uvarint(ToUint64(v))|))
    ensures ToInt64(ToUint64(v)) == v
    ensures v < 0 ==> |Uvarint(ToUint64(v))| == 10
  {
    UvarintRoundTrip(ToUint64(v), suffix);
    if v < 0 {
      UvarintLowerBound(ToUint64(v), 9);
    }
  }

  /** The guide's own example, and a value of one group. */
  lemma VarintExample()
    ensures Uvarint(150) == [0x96, 0x01] && ReadUvarint([0x96, 0x01]) == Some((150, 2))
    ensures forall v: uint64 :: v < 0x80 ==> Uvarint(v) == [v]
  {
    UvarintRoundTrip(150, []);
    assert Uvarint(150) + [] == [0x96, 0x01];
  }
}
