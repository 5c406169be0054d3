/** The ICMP echo checksum (section 1 of RFC 1071; Echo message of RFC 792). */
module IcmpChecksum {
  import opened Bytes

  /** `struct.unpack("!nH", data)`: big-endian 16-bit words. */
  function Words(data: bytes): (w: seq<nat>)
    requires |data| % 2 == 0
    ensures |w| == |data| / 2
    ensures forall i :: 0 <= i < |w| ==> w[i] == (data[2 * i] as int) * 0x100 + data[2 * i + 1]
  {
    seq(|data| / 2, i requires 0 <= i < |data| / 2 => (data[2 * i] as int) * 0x100 + data[2 * i + 1])
  }

  function Sum(w: seq<nat>): nat {
    if w == [] then 0 else w[0] + Sum(w[1..])
  }

  /** The two folding steps on the running sum. */
  method FoldTwice(sum: nat) returns (s: nat)
    ensures s == Folded(sum)
  {
    s := sum;
    s := s / 0x1_0000 + s % 0x1_0000;
    s := s + s / 0x1_0000;
  }

  function Folded(sum: nat): nat {
    var s := sum / 0x1_0000 + sum % 0x1_0000;
    s + s / 0x1_0000
  }

  /** The checksum of an even number of bytes whose checksum word is zero: `~s & 0xFFFF`. */
  method Checksum(data: bytes) returns (c: nat)
    requires |data| % 2 == 0
    ensures c <= 0xFFFF && c == 0xFFFF - Folded(Sum(Words(data))) % 0x1_0000
    ensures |data| / 2 <= 0x1_0000 ==> (c + Sum(Words(data))) % 0xFFFF == 0
  {
    var w := Words(data);
    var s := 0;
    for i := 0 to |w|
      invariant s + Sum(w[i..]) == Sum(w)
    {
      assert w[i..][1..] == w[i + 1..];
      s := s + w[i];
    }
    s := FoldTwice(s);
    c := (-s - 1) % 0x1_0000;
    Complement(s);
    if |w| <= 0x1_0000 {
      SumBound(w, 0xFFFF);
      NegatedSum(Sum(w));
    }
  }

  /** `~s & 0xFFFF` flips the low sixteen bits. */
  lemma Complement(s: int)
    requires s >= 0
    ensures (-s - 1) % 0x1_0000 == 0xFFFF - s % 0x1_0000
  {
    assert -s - 1 == 0xFFFF - s % 0x1_0000 - 0x1_0000 * (s / 0x1_0000 + 1);
  }

  /** The checksum is congruent to the negated word sum modulo 65535. */
  lemma NegatedSum(sum: nat)
    requires sum <= 0x1_0000 * 0xFFFF
    ensures (0xFFFF - Folded(sum) % 0x1_0000 + sum) % 0xFFFF == 0
  {
    FoldCongruent(sum);
    var low := Folded(sum) % 0x1_0000;
    CongruentSum(low, sum, 0xFFFF - low);
  }

  lemma {:induction false} SumBound(w: seq<nat>, max: nat)
    requires forall i :: 0 <= i < |w| ==> w[i] <= max
    ensures Sum(w) <= |w| * max
  {
    if w != [] {
      SumBound(w[1..], max);
      assert |w| * max == max + (|w| - 1) * max;
    }
  }

  /** Two folds are enough below 2^32: the low word keeps the sum modulo 65535 and
      is zero only for a zero sum. */
  lemma FoldCongruent(sum: nat)
    requires sum <= 0x1_0000 * 0xFFFF
    ensures (Folded(sum) % 0x1_0000) % 0xFFFF == sum % 0xFFFF
    ensures Folded(sum) % 0x1_0000 == 0 <==> sum == 0
  {
    var hi, lo := sum / 0x1_0000, sum % 0x1_0000;
    var once := hi + lo;
    assert sum == hi * 0x1_0000 + lo;
    assert hi <= 0xFFFF && once <= 0x1_FFFE;
    assert sum == hi * 0xFFFF + once;
    if once < 0x1_0000 {
      assert Folded(sum) == once;
    } else {
      assert once / 0x1_0000 == 1;
      assert Folded(sum) % 0x1_0000 == once - 0xFFFF;
    }
    ModShift(once, hi, sum);
  }

  lemma ModShift(a: nat, k: nat, b: nat)
    requires b == k * 0xFFFF + a
    ensures a % 0xFFFF == b % 0xFFFF
    decreases k
  {
    if k > 0 {
      ModShift(a, k - 1, b - 0xFFFF);
      assert (b - 0xFFFF) % 0xFFFF == b % 0xFFFF;
    }
  }

  /** The word written back over the zeroed one. */
  function Insert(data: bytes, at: nat, c: nat): (r: bytes)
    requires |data| % 2 == 0 && 2 * at + 1 < |data| && c <= 0xFFFF
    ensures |r| == |data|
  {
    data[2 * at := c / 0x100][2 * at + 1 := c % 0x100]
  }

  lemma {:induction false} SumUpdate(w: seq<nat>, at: nat, c: nat)
    requires at < |w| && w[at] == 0
    ensures Sum(w[at := c]) == Sum(w) + c
  {
    if at == 0 {
      assert w[at := c][1..] == w[1..];
    } else {
      SumUpdate(w[1..], at - 1, c);
      assert w[at := c][1..] == w[1..][at - 1 := c];
    }
  }

  lemma InsertedSum(data: bytes, at: nat, c: nat)
    requires |data| % 2 == 0 && 2 * at + 1 < |data| && c <= 0xFFFF
    requires data[2 * at] == 0 && data[2 * at + 1] == 0
    ensures Sum(Words(Insert(data, at, c))) == Sum(Words(data)) + c
  {
    var w := Words(data);
    assert Words(Insert(data, at, c)) == w[at := c] by {
      forall i | 0 <= i < |w| ensures Words(Insert(data, at, c))[i] == w[at := c][i] {
        assert i == at ==> (c / 0x100) * 0x100 + c % 0x100 == c;
      }
    }
    SumUpdate(w, at, c);
  }

  /** A receiver's check: with the checksum in its word, the words fold to 0xFFFF.
      It holds for every packet of at most 65536 words, wherever the word sits. */
  lemma ChecksumVerifies(data: bytes, at: nat, c: nat)
    requires |data| % 2 == 0 && |data| / 2 <= 0x1_0000 && 2 * at + 1 < |data|
    requires data[2 * at] == 0 && data[2 * at + 1] == 0
    requires c == 0xFFFF - Folded(Sum(Words(data))) % 0x1_0000
    ensures c <= 0xFFFF
    ensures Folded(Sum(Words(Insert(data, at, c)))) % 0x1_0000 == 0xFFFF
  {
    hide *;
    ZeroWordBound(data, at);
    FoldsToOnes(Sum(Words(data)), c);
    InsertedSum(data, at, c);
  }

  lemma FoldsToOnes(sum: nat, c: nat)
    requires sum <= 0xFFFF * 0xFFFF && c == 0xFFFF - Folded(sum) % 0x1_0000
    ensures Folded(sum + c) % 0x1_0000 == 0xFFFF
  {
    hide Folded;
    FoldCongruent(sum);
    FoldCongruent(sum + c);
    var low := Folded(sum) % 0x1_0000;
    assert (low + c) % 0xFFFF == 0;
    CongruentSum(low, sum, c);
    assert (sum + c) % 0xFFFF == 0;
  }

  lemma CongruentSum(a: nat, b: nat, c: nat)
    requires a % 0xFFFF == b % 0xFFFF
    ensures (a + c) % 0xFFFF == (b + c) % 0xFFFF
  {
  }

  lemma ZeroWordBound(data: bytes, at: nat)
    requires |data| % 2 == 0 && |data| / 2 <= 0x1_0000 && 2 * at + 1 < |data|
    requires data[2 * at] == 0 && data[2 * at + 1] == 0
    ensures Sum(Words(data)) <= 0xFFFF * 0xFFFF
  {
    var w := Words(data);
    SumBound(w[at := 0xFFFF], 0xFFFF);
    SumUpdate(w, at, 0xFFFF);
  }

  /** What the second fold still carries past sixteen bits. */
  function Overflow(sum: nat): nat {
    var once := sum / 0x1_0000 + sum % 0x1_0000;
    (once / 0x1_0000 + once % 0x1_0000) / 0x1_0000
  }

  /** For any sum, of any number of words: two folds keep it modulo 65535 exactly when
      the second one carries nothing out of the low word, or a multiple of 65535. */
  lemma TwoFoldsExactlyWhen(sum: nat)
    ensures (Folded(sum) % 0x1_0000) % 0xFFFF == sum % 0xFFFF <==> Overflow(sum) % 0xFFFF == 0
  {
    var hi, lo := sum / 0x1_0000, sum % 0x1_0000;
    var once := hi + lo;
    var q, r := once / 0x1_0000, once % 0x1_0000;
    var low, h := (q + r) % 0x1_0000, (q + r) / 0x1_0000;
    assert sum == hi * 0xFFFF + once && once == q * 0xFFFF + (q + r) && q + r == h * 0xFFFF + (h + low);
    ModShift(once, hi, sum);
    ModShift(q + r, q, once);
    ModShift(h + low, h, q + r);
    assert Folded(sum) == q * 0x1_0000 + (q + r);
    SameLow(q, q + r);
    ZeroShift(h, low);
  }

  lemma SameLow(q: nat, x: nat)
    ensures (q * 0x1_0000 + x) % 0x1_0000 == x % 0x1_0000
  {
  }

  lemma ZeroShift(h: nat, low: nat)
    ensures low % 0xFFFF == (h + low) % 0xFFFF <==> h % 0xFFFF == 0
  {
    var a, b := h / 0xFFFF, h % 0xFFFF;
    var c, d := low / 0xFFFF, low % 0xFFFF;
    ModShift(b + d, a + c, h + low);
  }

  function Ones(n: nat): (w: seq<nat>)
    ensures |w| == n && forall i :: 0 <= i < n ==> w[i] == 0xFFFF
  {
    seq(n, i => 0xFFFF)
  }

  lemma {:induction false} SumOnes(n: nat, last: nat)
    ensures Sum(Ones(n) + [last]) == n * 0xFFFF + last
  {
    if n == 0 {
      assert Ones(0) + [last] == [last];
      assert [last][1..] == [];
    } else {
      SumOnes(n - 1, last);
      assert (Ones(n) + [last])[1..] == Ones(n - 1) + [last];
    }
  }

  /** `n` words of ones, then a word of value 1. */
  function OnesThenOne(n: nat): (data: bytes)
    ensures |data| == 2 * n + 2
  {
    seq(2 * n, i => 0xFF) + [0, 1]
  }

  lemma OnesThenOneWords(n: nat)
    ensures Words(OnesThenOne(n)) == Ones(n) + [1]
  {
    var p := OnesThenOne(n);
    assert forall k :: 0 <= k < 2 * n ==> p[k] == 0xFF;
    assert p[2 * n] == 0 && p[2 * n + 1] == 1;
  }

  /** Such a packet of 65539 words: its check word does not cancel its sum. */
  lemma LongPacketMiscounted(n: nat)
    requires n == 65538
    ensures var sum := Sum(Words(OnesThenOne(n)));
      (0xFFFF - Folded(sum) % 0x1_0000 + sum) % 0xFFFF != 0
  {
    OnesThenOneWords(n);
    SumOnes(n, 1);
    hide *;
    TooMuch(n * 0xFFFF + 1);
  }

  lemma TooMuch(sum: nat)
    requires sum == 65538 * 0xFFFF + 1
    ensures (0xFFFF - Folded(sum) % 0x1_0000 + sum) % 0xFFFF != 0
  {
    assert Folded(sum) % 0x1_0000 == 0;
  }
}
