/** `buildWriteRequest` and the label sets it builds: which labels each series
    carries, in what order, and when that order is the only possible one. */
module RemoteWrite {
  import opened Bytes
  import opened Ordering
  import opened RemoteWriteCodec
  import opened Varint

  const NAME_LABEL: bytes := [0x5f, 0x5f, 0x6e, 0x61, 0x6d, 0x65, 0x5f, 0x5f]  // __name__
  const POD: bytes := [0x70, 0x6f, 0x64]
  const NODE: bytes := [0x6e, 0x6f, 0x64, 0x65]

  // ---------------------------------------------------------------------
  // Label sets
  // ---------------------------------------------------------------------

  predicate PerInstance(l: Label) {
    l.name == POD || l.name == NODE
  }

  /** The external labels minus the per-instance ones, order kept. */
  function ClusterScoped(extra: seq<Label>): (out: seq<Label>) {
    if extra == [] then []
    else
      var rest := ClusterScoped(extra[..|extra| - 1]);
      var last := extra[|extra| - 1];
      if PerInstance(last) then rest else rest + [last]
  }

  /** The label list before sorting: metric name, external labels, key labels. */
  function LabelsOf(s: Sample, extra: seq<Label>): seq<Label> {
    [Label(NAME_LABEL, s.metric)] + (if s.global then ClusterScoped(extra) else extra) + s.labels
  }

  predicate NameLe(a: Label, b: Label) {
    LexLe(a.name, b.name)
  }

  ghost predicate NameSorted(ls: seq<Label>) {
    SortedBy(ls, NameLe)
  }

  /** What `sort.Slice` may leave: it promises order, not stability. */
  ghost predicate IsOrdering(ls: seq<Label>, of: seq<Label>) {
    NameSorted(ls) && multiset(ls) == multiset(of)
  }

  lemma NameTotal(x: Label, y: Label)
    ensures NameLe(x, y) || NameLe(y, x)
  {
    LexTotal(x.name, y.name);
  }

  lemma NameTransitive(x: Label, y: Label, z: Label)
    requires NameLe(x, y) && NameLe(y, z)
    ensures NameLe(x, z)
  {
    LexTransitive(x.name, y.name, z.name);
  }

  // ---------------------------------------------------------------------
  // The encoder
  // ---------------------------------------------------------------------

  method AppendTag(b: bytes, field: nat, wire: nat) returns (r: bytes)
    requires 1 <= field <= 2 && wire < 8
    ensures r == b + Tag(field, wire)
  {
    r := AppendUvarint(b, field * 8 + wire);
  }

  method AppendBytesField(b: bytes, field: nat, data: bytes) returns (r: bytes)
    requires 1 <= field <= 2
    ensures r == b + LenFieldBytes(field, data)
  {
    r := AppendTag(b, field, 2);
    r := AppendUvarint(r, Len64(data));
    r := r + data;
  }

  method AppendVarintField(b: bytes, field: nat, v: int64) returns (r: bytes)
    requires 1 <= field <= 2
    ensures r == b + Tag(field, 0) + Uvarint(ToUint64(v))
  {
    r := AppendTag(b, field, 0);
    r := AppendUvarint(r, ToUint64(v));
  }

  method AppendDoubleField(b: bytes, field: nat, bits: uint64) returns (r: bytes)
    requires 1 <= field <= 2
    ensures r == b + Tag(field, 1) + LittleEndian(bits, 8)
  {
    r := AppendTag(b, field, 1);
    r := r + LittleEndian(bits, 8);
  }

  method EncodeLabel(l: Label) returns (b: bytes)
    ensures b == LabelBytes(l)
  {
    b := AppendBytesField([], 1, l.name);
    b := AppendBytesField(b, 2, l.value);
  }

  method EncodeSample(value: uint64, tsMillis: int64) returns (b: bytes)
    ensures b == PointBytes(Point(value, tsMillis))
  {
    hide Uvarint;
    hide LittleEndian;
    b := AppendDoubleField([], 1, value);
    b := AppendVarintField(b, 2, tsMillis);
  }

  method DropPerInstance(extra: seq<Label>) returns (out: seq<Label>)
    ensures out == ClusterScoped(extra)
  {
    out := [];
    for i := 0 to |extra|
      invariant out == ClusterScoped(extra[..i])
    {
      assert extra[..i + 1][..i] == extra[..i];
      if !PerInstance(extra[i]) {
        out := out + [extra[i]];
      }
    }
    assert extra[..|extra|] == extra;
  }

  /** The first `i + 1` labels are in order but for the one at `j`, still on its way down. */
  ghost predicate Sinking(s: seq<Label>, i: nat, j: nat, of: seq<Label>) {
    i < |s| && j <= i && multiset(s) == multiset(of) &&
    forall p, q :: 0 <= p < q <= i && q != j ==> NameLe(s[p], s[q])
  }

  lemma SinkStarts(s: seq<Label>, i: nat)
    requires i < |s| && NameSorted(s[..i])
    ensures Sinking(s, i, i, s)
  {
    assert forall p, q :: 0 <= p < q < i ==> s[..i][p] == s[p] && s[..i][q] == s[q];
  }

  lemma SinkStep(s: seq<Label>, i: nat, j: nat, of: seq<Label>)
    requires j > 0 && Sinking(s, i, j, of) && !NameLe(s[j - 1], s[j])
    ensures Sinking(s[j - 1 := s[j]][j := s[j - 1]], i, j - 1, of)
  {
    hide NameLe;
    NameTotal(s[j - 1], s[j]);
  }

  lemma SinkEnds(s: seq<Label>, i: nat, j: nat, of: seq<Label>)
    requires Sinking(s, i, j, of) && (j > 0 ==> NameLe(s[j - 1], s[j]))
    ensures NameSorted(s[..i + 1]) && multiset(s) == multiset(of)
  {
    hide NameLe;
    forall p | 0 <= p < j ensures NameLe(s[p], s[j]) {
      if p < j - 1 {
        NameTransitive(s[p], s[j - 1], s[j]);
      }
    }
  }

  /** Moves `a[i]` down into the sorted prefix before it. */
  method Insert(a: array<Label>, i: nat)
    requires i < a.Length && NameSorted(a[..i])
    modifies a
    ensures NameSorted(a[..i + 1])
    ensures multiset(a[..]) == multiset(old(a[..]))
  {
    var j := i;
    assert a[..][..i] == a[..i];
    SinkStarts(a[..], i);
    hide NameLe;
    hide Sinking;
    while j > 0 && !NameLe(a[j - 1], a[j])
      invariant 0 <= j <= i
      invariant Sinking(a[..], i, j, old(a[..]))
    {
      SinkStep(a[..], i, j, old(a[..]));
      ghost var was := a[..];
      a[j - 1], a[j] := a[j], a[j - 1];
      assert a[..] == was[j - 1 := was[j]][j := was[j - 1]];
      j := j - 1;
    }
    SinkEnds(a[..], i, j, old(a[..]));
    assert a[..][..i + 1] == a[..i + 1];
  }

  /** `sort.Slice` by name, in place. Callers rely on the contract only. */
  method SortByName(a: array<Label>)
    modifies a
    ensures IsOrdering(a[..], old(a[..]))
  {
    for i := 0 to a.Length
      invariant multiset(a[..]) == multiset(old(a[..]))
      invariant NameSorted(a[..i])
    {
      Insert(a, i);
    }
    assert a[..a.Length] == a[..];
  }

  lemma {:induction false} RecordsAppend(field: nat, items: seq<bytes>, x: bytes)
    requires 1 <= field <= 2
    ensures Records(field, items + [x]) == Records(field, items) + LenFieldBytes(field, x)
  {
    hide LenFieldBytes;
    if items == [] {
      assert items + [x] == [x];
      assert Records(field, []) == [];
      assert Records(field, [x]) == LenFieldBytes(field, x) + [];
    } else {
      RecordsAppend(field, items[1..], x);
      assert (items + [x])[1..] == items[1..] + [x];
    }
  }

  /** One sample's TimeSeries message. */
  method EncodeSeries(labels: array<Label>, value: uint64, tsMillis: int64) returns (ts: bytes)
    ensures ts == SeriesBytes(labels[..], Point(value, tsMillis))
  {
    ts := [];
    for i := 0 to labels.Length
      invariant ts == Records(1, LabelItems(labels[..i]))
    {
      var l := EncodeLabel(labels[i]);
      ts := AppendBytesField(ts, 1, l);
      RecordsAppend(1, LabelItems(labels[..i]), l);
      assert LabelItems(labels[..i]) + [l] == LabelItems(labels[..i + 1]);
    }
    assert labels[..labels.Length] == labels[..];
    var p := EncodeSample(value, tsMillis);
    ts := AppendBytesField(ts, 2, p);
  }

  lemma RequestAppend(samples: seq<Sample>, orders: seq<seq<Label>>, s: Sample, o: seq<Label>, tsMillis: int64)
    requires |orders| == |samples|
    ensures RequestBytes(samples + [s], orders + [o], tsMillis)
         == RequestBytes(samples, orders, tsMillis) + LenFieldBytes(1, SeriesBytes(o, Point(s.value, tsMillis)))
  {
    hide LenFieldBytes;
    hide SeriesBytes;
    var ts := SeriesBytes(o, Point(s.value, tsMillis));
    RecordsAppend(1, SeriesItems(samples, orders, tsMillis), ts);
    assert SeriesItems(samples, orders, tsMillis) + [ts] == SeriesItems(samples + [s], orders + [o], tsMillis);
  }

  lemma RequestOfNone(samples: seq<Sample>, orders: seq<seq<Label>>, tsMillis: int64)
    requires samples == [] && orders == []
    ensures RequestBytes(samples, orders, tsMillis) == []
  {
  }

  /** One turn of the loop: collect the labels, sort them, encode the series. */
  method EncodeOne(s: Sample, extra: seq<Label>, globalExtra: seq<Label>, tsMillis: int64)
    returns (ts: bytes, ghost order: seq<Label>)
    requires globalExtra == ClusterScoped(extra)
    ensures IsOrdering(order, LabelsOf(s, extra))
    ensures ts == SeriesBytes(order, Point(s.value, tsMillis))
  {
    var ex := if s.global then globalExtra else extra;
    var list := [Label(NAME_LABEL, s.metric)] + ex + s.labels;
    var labels := new Label[|list|](k requires 0 <= k < |list| => list[k]);
    assert labels[..] == list;
    SortByName(labels);
    order := labels[..];
    ts := EncodeSeries(labels, s.value, tsMillis);
  }

  /** The loop of `buildWriteRequest`; `orders` records how each label list came
      out of the sort. Compression of `req` is not part of this model. */
  method EncodeRequest(samples: seq<Sample>, extra: seq<Label>, tsMillis: int64)
    returns (req: bytes, ghost orders: seq<seq<Label>>)
    ensures |orders| == |samples|
    ensures forall i :: 0 <= i < |samples| ==> IsOrdering(orders[i], LabelsOf(samples[i], extra))
    ensures req == RequestBytes(samples, orders, tsMillis)
  {
    hide *;
    var globalExtra := DropPerInstance(extra);
    req, orders := [], [];
    RequestOfNone(samples[..0], orders, tsMillis);
    for i := 0 to |samples|
      invariant |orders| == i
      invariant forall k :: 0 <= k < i ==> IsOrdering(orders[k], LabelsOf(samples[k], extra))
      invariant req == RequestBytes(samples[..i], orders, tsMillis)
    {
      ghost var order;
      var ts;
      ts, order := EncodeOne(samples[i], extra, globalExtra, tsMillis);
      RequestAppend(samples[..i], orders, samples[i], order, tsMillis);
      assert samples[..i] + [samples[i]] == samples[..i + 1];
      req := AppendBytesField(req, 1, ts);
      orders := orders + [order];
    }
    assert samples[..|samples|] == samples;
  }

  /** How often each label is carried: the metric name under `__name__`, the sample's own
      labels and the external ones, of which a cluster-shared sample leaves out `pod` and
      `node`. */
  ghost predicate LabelsCarried(ls: seq<Label>, s: Sample, extra: seq<Label>) {
    forall l ::
      multiset(ls)[l] ==
        (if l == Label([0x5f, 0x5f, 0x6e, 0x61, 0x6d, 0x65, 0x5f, 0x5f], s.metric) then 1 else 0) +
        multiset(s.labels)[l] +
        (if s.global && (l.name == [0x70, 0x6f, 0x64] || l.name == [0x6e, 0x6f, 0x64, 0x65]) then 0
         else multiset(extra)[l])
  }

  lemma LabelCounts(ls: seq<Label>, s: Sample, extra: seq<Label>)
    requires multiset(ls) == multiset(LabelsOf(s, extra))
    ensures LabelsCarried(ls, s, extra)
  {
    ClusterScopedCounts(extra);
    var own, name := if s.global then ClusterScoped(extra) else extra, Label(NAME_LABEL, s.metric);
    assert multiset(ls) == multiset([name] + own + s.labels);
    assert multiset([name] + own + s.labels) == multiset{name} + multiset(own) + multiset(s.labels);
  }

  /** Names in byte order: at the first byte where two differ the earlier name has the
      smaller one, or it is the start of the later. */
  ghost predicate InByteOrder(ls: seq<Label>) {
    forall i, j :: 0 <= i < j < |ls| ==>
      ls[i].name <= ls[j].name || exists k :: FirstDifference(ls[i].name, ls[j].name, k)
  }

  lemma OrderedByBytes(ls: seq<Label>)
    requires NameSorted(ls)
    ensures InByteOrder(ls)
  {
    forall i, j | 0 <= i < j < |ls|
      ensures ls[i].name <= ls[j].name || exists k :: FirstDifference(ls[i].name, ls[j].name, k)
    {
      assert NameLe(ls[i], ls[j]);
      LexLeExactlyWhen(ls[i].name, ls[j].name);
    }
    hide FirstDifference;
  }

  /** What a series must carry for its sample. */
  ghost predicate Carries(ts: TimeSeries, s: Sample, extra: seq<Label>, tsMillis: int64) {
    IsOrdering(ts.labels, LabelsOf(s, extra)) && ts.points == [Point(s.value, tsMillis)]
  }

  /** `buildWriteRequest` up to compression: a general proto3 reader consumes every
      byte and finds one series per sample, in order, each with a name-sorted
      permutation of its labels and the exact value bits and timestamp. The bound
      is Go's own: the length of a slice is an `int`. */
  method BuildWriteRequest(samples: seq<Sample>, extra: seq<Label>, tsMillis: int64) returns (req: bytes)
    ensures |req| < TWO_63 ==> DecodeRequest(req).Some?
    ensures |req| < TWO_63 ==>
      var series := DecodeRequest(req).value;
      |series| == |samples| &&
      forall i :: 0 <= i < |samples| ==>
        Carries(series[i], samples[i], extra, tsMillis) && LabelsCarried(series[i].labels, samples[i], extra) &&
        InByteOrder(series[i].labels) && series[i].points == [Point(samples[i].value, tsMillis)]
  {
    ghost var orders;
    req, orders := EncodeRequest(samples, extra, tsMillis);
    if |req| < TWO_63 {
      RequestRoundTrip(samples, orders, tsMillis);
      OrdersCarry(samples, orders, extra);
    }
    hide LabelsOf;
    hide LabelsCarried;
    hide InByteOrder;
    hide IsOrdering;
  }

  lemma OrdersCarry(samples: seq<Sample>, orders: seq<seq<Label>>, extra: seq<Label>)
    requires |orders| == |samples|
    requires forall i :: 0 <= i < |samples| ==> IsOrdering(orders[i], LabelsOf(samples[i], extra))
    ensures forall i :: 0 <= i < |samples| ==>
      InByteOrder(orders[i]) && LabelsCarried(orders[i], samples[i], extra)
  {
    forall i | 0 <= i < |samples| ensures InByteOrder(orders[i]) && LabelsCarried(orders[i], samples[i], extra) {
      OrderedByBytes(orders[i]);
      LabelCounts(orders[i], samples[i], extra);
    }
  }

  // ---------------------------------------------------------------------
  // When the sorted order is forced
  // ---------------------------------------------------------------------

  /** No two labels share a name with different values. */
  ghost predicate AgreeOnNames(ls: seq<Label>) {
    forall i, j :: 0 <= i < j < |ls| && ls[i].name == ls[j].name ==> ls[i] == ls[j]
  }

  /** `remote_write requires sorted, unique label names`. */
  ghost predicate DistinctNames(ls: seq<Label>) {
    forall i, j :: 0 <= i < j < |ls| ==> ls[i].name != ls[j].name
  }

  lemma IndexIn(s: seq<Label>, t: seq<Label>, i: nat) returns (k: nat)
    requires multiset(s) == multiset(t) && i < |s|
    ensures k < |t| && t[k] == s[i]
  {
    assert s[i] in multiset(t);
    k :| k < |t| && t[k] == s[i];
  }

  lemma AgreeTransfers(s: seq<Label>, t: seq<Label>)
    requires multiset(s) == multiset(t) && AgreeOnNames(s)
    ensures AgreeOnNames(t)
  {
    forall i, j | 0 <= i < j < |t| && t[i].name == t[j].name ensures t[i] == t[j] {
      var k := IndexIn(t, s, i);
      var l := IndexIn(t, s, j);
    }
  }

  lemma NameLeBoth(x: Label, y: Label)
    requires NameLe(x, y) && NameLe(y, x)
    ensures x.name == y.name
  {
    LexAntisymmetric(x.name, y.name);
  }

  lemma TailsAlike(a: seq<Label>, b: seq<Label>)
    requires a != [] && b != [] && a[0] == b[0] && multiset(a) == multiset(b)
    ensures multiset(a[1..]) == multiset(b[1..])
  {
    TakenOut(a, b, 0);
    assert b[..0] + b[1..] == b[1..];
  }

  lemma {:induction false} OrderingUnique(a: seq<Label>, b: seq<Label>)
    requires NameSorted(a) && NameSorted(b) && multiset(a) == multiset(b)
    requires AgreeOnNames(a)
    ensures a == b
  {
    hide NameLe;
    assert |a| == |multiset(a)| == |multiset(b)| == |b|;
    if a != [] {
      var i := IndexIn(a, b, 0);
      var j := IndexIn(b, a, 0);
      NameTotal(a[0], a[0]);
      NameLeBoth(a[0], b[0]);
      assert a[0] == b[0];
      assert a == [a[0]] + a[1..] && b == [b[0]] + b[1..];
      TailsAlike(a, b);
      OrderingUnique(a[1..], b[1..]);
    }
  }

  /** The exact condition: a sort's result is determined by the labels alone if and
      only if labels that share a name are equal. */
  lemma OrderingForced(o: seq<Label>, of: seq<Label>)
    requires IsOrdering(o, of)
    ensures (forall o' :: IsOrdering(o', of) ==> o' == o) <==> AgreeOnNames(of)
  {
    if AgreeOnNames(of) {
      AgreeTransfers(of, o);
      forall o' | IsOrdering(o', of) ensures o' == o {
        OrderingUnique(o, o');
      }
    } else {
      var x, y :| 0 <= x < y < |of| && of[x].name == of[y].name && of[x] != of[y];
      var i := IndexIn(of, o, x);
      var j := IndexIn(of, o, y);
      SwapEquals(o, i, j);
      var o' := o[i := o[j]][j := o[i]];
      assert IsOrdering(o', of) && o'[i] != o[i];
    }
  }

  lemma SwapEquals(o: seq<Label>, i: nat, j: nat)
    requires i < |o| && j < |o| && o[i].name == o[j].name && NameSorted(o)
    ensures multiset(o[i := o[j]][j := o[i]]) == multiset(o)
    ensures NameSorted(o[i := o[j]][j := o[i]])
  {
    var o' := o[i := o[j]][j := o[i]];
    forall p, q | 0 <= p < q < |o| ensures NameLe(o'[p], o'[q]) {
      assert o'[p].name == o[p].name && o'[q].name == o[q].name;
      assert NameLe(o[p], o[q]);
    }
  }

  /** Distinct names in, strictly increasing names out; and never otherwise. */
  lemma StrictExactlyWhenDistinct(o: seq<Label>, of: seq<Label>)
    requires IsOrdering(o, of)
    ensures (forall i, j :: 0 <= i < j < |o| ==> LexLt(o[i].name, o[j].name)) <==> DistinctNames(of)
  {
    if DistinctNames(of) {
      DistinctTransfers(of, o);
      forall i, j | 0 <= i < j < |o| ensures LexLt(o[i].name, o[j].name) {
        assert NameLe(o[i], o[j]);
        if LexLe(o[j].name, o[i].name) {
          NameLeBoth(o[i], o[j]);
        }
      }
    } else {
      if DistinctNames(o) {
        DistinctTransfers(o, of);
      }
      var i, j :| 0 <= i < j < |o| && o[i].name == o[j].name;
      LexTotal(o[i].name, o[i].name);
    }
  }

  lemma DistinctTransfers(s: seq<Label>, t: seq<Label>)
    requires multiset(s) == multiset(t) && DistinctNames(s)
    ensures DistinctNames(t)
  {
    AgreeTransfers(s, t);
    forall i, j | 0 <= i < j < |t| ensures t[i].name != t[j].name {
      if t[i].name == t[j].name {
        CountsTwice(t, i, j);
        CountsOnce(s, t[i]);
      }
    }
  }

  lemma CountsTwice(s: seq<Label>, i: nat, j: nat)
    requires i < j < |s| && s[i] == s[j]
    ensures multiset(s)[s[i]] >= 2
  {
    assert s == s[..j] + s[j..];
    assert s[i] in s[..j] && s[j] in s[j..];
    assert s[..j][i] == s[i] && s[j..][0] == s[j];
  }

  lemma {:induction false} CountsOnce(s: seq<Label>, l: Label)
    requires DistinctNames(s)
    ensures multiset(s)[l] <= 1
  {
    if s != [] {
      assert s == [s[0]] + s[1..];
      CountsOnce(s[1..], l);
    }
  }

  function Size(ls: seq<Label>): nat {
    |Records(1, LabelItems(ls))|
  }

  lemma SizeCons(l: Label, ls: seq<Label>)
    ensures Size([l] + ls) == |LenFieldBytes(1, LabelBytes(l))| + Size(ls)
  {
    hide LenFieldBytes;
    hide LabelBytes;
    assert LabelItems([l] + ls)[1..] == LabelItems(ls);
  }

  lemma {:induction false} SizeConcat(a: seq<Label>, b: seq<Label>)
    ensures Size(a + b) == Size(a) + Size(b)
  {
    if a == [] {
      assert a + b == b;
    } else {
      SizeConcat(a[1..], b);
      assert a == [a[0]] + a[1..] && a + b == [a[0]] + (a[1..] + b);
      hide Size;
      SizeCons(a[0], a[1..]);
      SizeCons(a[0], a[1..] + b);
    }
  }

  lemma TakenOut(a: seq<Label>, b: seq<Label>, k: nat)
    requires a != [] && k < |b| && b[k] == a[0] && multiset(a) == multiset(b)
    ensures a == [a[0]] + a[1..] && b == b[..k] + ([a[0]] + b[k + 1..])
    ensures multiset(a[1..]) == multiset(b[..k] + b[k + 1..])
  {
    assert a == [a[0]] + a[1..] && b == b[..k] + ([a[0]] + b[k + 1..]);
    Without(a[0], a[1..], b[..k], b[k + 1..]);
  }

  lemma Without(x: Label, rest: seq<Label>, front: seq<Label>, back: seq<Label>)
    requires multiset([x] + rest) == multiset(front + ([x] + back))
    ensures multiset(rest) == multiset(front + back)
  {
    assert multiset([x] + rest) == multiset{x} + multiset(rest);
    assert multiset(front + ([x] + back)) == multiset(front) + (multiset{x} + multiset(back));
    assert multiset(rest) == multiset([x] + rest) - multiset{x};
  }

  /** Whatever the order, the labels take as many bytes. */
  lemma {:induction false} SizeOfOrder(a: seq<Label>, b: seq<Label>)
    requires multiset(a) == multiset(b)
    ensures Size(a) == Size(b)
  {
    if a == [] {
      assert |multiset(b)| == |b|;
    } else {
      var k := IndexIn(a, b, 0);
      var front, back := b[..k], b[k + 1..];
      TakenOut(a, b, k);
      hide *;
      SizeOfOrder(a[1..], front + back);
      SizeCons(a[0], a[1..]);
      SizeCons(a[0], back);
      SizeConcat(front, [a[0]] + back);
      SizeConcat(front, back);
    }
  }

  lemma SeriesBytesInjective(o: seq<Label>, o': seq<Label>, p: Point)
    requires |SeriesBytes(o, p)| < TWO_63
    ensures SeriesBytes(o, p) == SeriesBytes(o', p) ==> o == o'
  {
    if SeriesBytes(o, p) == SeriesBytes(o', p) {
      SeriesRoundTrip(o, p);
      SeriesRoundTrip(o', p);
      hide *;
    }
  }

  lemma SomeOrdering(of: seq<Label>) returns (o: seq<Label>)
    ensures IsOrdering(o, of)
  {
    forall x, y ensures NameLe(x, y) || NameLe(y, x) {
      NameTotal(x, y);
    }
    forall x, y, z | NameLe(x, y) && NameLe(y, z) ensures NameLe(x, z) {
      NameTransitive(x, y, z);
    }
    hide NameLe;
    StableSortSorts(of, NameLe);
    o := StableSort(of, NameLe);
  }

  /** Without agreement two sorts of the same labels may leave different bytes. */
  lemma TwoEncodings(of: seq<Label>, p: Point) returns (o: seq<Label>, o': seq<Label>)
    requires !AgreeOnNames(of) && |SeriesBytes(of, p)| < TWO_63
    ensures IsOrdering(o, of) && IsOrdering(o', of) && SeriesBytes(o, p) != SeriesBytes(o', p)
  {
    o := SomeOrdering(of);
    OrderingForced(o, of);
    o' :| IsOrdering(o', of) && o' != o;
    SizeOfOrder(o, of);
    SeriesBytesInjective(o, o', p);
  }

  ghost predicate SameBytes(of1: seq<Label>, of2: seq<Label>, p: Point) {
    forall o1, o2 :: IsOrdering(o1, of1) && IsOrdering(o2, of2) ==> SeriesBytes(o1, p) == SeriesBytes(o2, p)
  }

  /** Two exporters whose external labels agree apart from `pod` and `node` encode a
      cluster-shared sample to the same bytes, whatever their sorts did, if and only if
      its labels that share a name are equal. The bound is Go's, as above. */
  lemma GlobalSeriesAgreeExactlyWhen(s: Sample, extra1: seq<Label>, extra2: seq<Label>, tsMillis: int64)
    requires s.global && multiset(ClusterScoped(extra1)) == multiset(ClusterScoped(extra2))
    requires |SeriesBytes(LabelsOf(s, extra1), Point(s.value, tsMillis))| < TWO_63
    ensures SameBytes(LabelsOf(s, extra1), LabelsOf(s, extra2), Point(s.value, tsMillis))
       <==> AgreeOnNames(LabelsOf(s, extra1))
  {
    var of1, of2, p := LabelsOf(s, extra1), LabelsOf(s, extra2), Point(s.value, tsMillis);
    assert multiset(of1) == multiset(of2);
    hide LabelsOf;
    hide NameSorted;
    hide AgreeOnNames;
    hide SeriesBytes;
    if AgreeOnNames(of1) {
      forall o1, o2 | IsOrdering(o1, of1) && IsOrdering(o2, of2) ensures SeriesBytes(o1, p) == SeriesBytes(o2, p) {
        AgreeTransfers(of1, o1);
        OrderingUnique(o1, o2);
      }
    } else {
      var o, o' := TwoEncodings(of1, p);
      assert IsOrdering(o', of2);
    }
  }

  /** A series of a sample that is not global keeps every external label; one of a
      global sample keeps exactly those that are not per-instance. */
  lemma ExternalLabelsKept(ts: TimeSeries, s: Sample, extra: seq<Label>, tsMillis: int64)
    requires Carries(ts, s, extra, tsMillis)
    ensures !s.global ==> multiset(extra) <= multiset(ts.labels)
    ensures s.global ==>
      forall l :: l in extra && !PerInstance(l) ==> multiset(ts.labels)[l] >= multiset(extra)[l]
    ensures s.global ==>
      forall l :: l in multiset(ts.labels) && PerInstance(l) ==> l in s.labels
  {
    ClusterScopedCounts(extra);
    if s.global {
      forall l | l in multiset(ts.labels) && PerInstance(l) ensures l in s.labels {
        assert l in multiset(LabelsOf(s, extra));
      }
    }
  }

  lemma {:induction false} ClusterScopedCounts(extra: seq<Label>)
    ensures forall l :: multiset(ClusterScoped(extra))[l] == if PerInstance(l) then 0 else multiset(extra)[l]
  {
    if extra != [] {
      ClusterScopedCounts(extra[..|extra| - 1]);
      assert extra == extra[..|extra| - 1] + [extra[|extra| - 1]];
    }
  }
}
