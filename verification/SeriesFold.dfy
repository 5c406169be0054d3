/** Folding a per-model metric matrix into one series per model or per provider. */
module SeriesFold {
  import opened Bytes
  import opened Ordering

  datatype Point = Point(ts: string, value: real)
  datatype Row = Row(model: Option<string>, points: seq<Point>)
  datatype Series = Series(name: string, points: seq<Point>)

  // ---------------------------------------------------------------------
  // Keys
  // ---------------------------------------------------------------------

  function Lower(s: string): (r: string)
    ensures |r| == |s|
    ensures forall i :: 0 <= i < |s| ==> r[i] == if 'A' <= s[i] <= 'Z' then s[i] + ' ' else s[i]
  {
    seq(|s|, i requires 0 <= i < |s| => if 'A' <= s[i] <= 'Z' then s[i] - 'A' + 'a' else s[i])
  }

  function ProviderFor(model: string): string {
    var m := Lower(model);
    if "gpt" <= m || "o1" <= m || "o3" <= m || "o4" <= m then "openai"
    else if "claude" <= m then "anthropic"
    else if "gemini" <= m then "google"
    else "unknown"
  }

  function KeyOf(row: Row, byProvider: bool): string {
    var model := if row.model.Some? then row.model.value else "unknown";
    if byProvider then ProviderFor(model) else model
  }

  /** The text starts so, capitals or not. */
  predicate StartsLike(s: string, p: string) {
    |p| <= |s| && forall i :: 0 <= i < |p| ==> s[i] == p[i] || ('A' <= s[i] <= 'Z' && s[i] + ' ' == p[i])
  }

  /** Which provider a model belongs to: by how its name starts, capitals or not. */
  lemma ProviderIs(m: string)
    ensures ProviderFor(m) ==
      if StartsLike(m, "gpt") || StartsLike(m, "o1") || StartsLike(m, "o3") || StartsLike(m, "o4") then "openai"
      else if StartsLike(m, "claude") then "anthropic"
      else if StartsLike(m, "gemini") then "google"
      else "unknown"
  {
    LikeLower(m, "gpt");
    LikeLower(m, "o1");
    LikeLower(m, "o3");
    LikeLower(m, "o4");
    LikeLower(m, "claude");
    LikeLower(m, "gemini");
    hide StartsLike;
    hide Lower;
  }

  lemma LikeLower(m: string, p: string)
    requires forall i :: 0 <= i < |p| ==> !('A' <= p[i] <= 'Z')
    ensures StartsLike(m, p) <==> p <= Lower(m)
  {
  }

  /** The key of a row: its model, "unknown" without one, or that model's provider. */
  lemma KeyOfIs(row: Row)
    ensures KeyOf(row, false) == if row.model.None? then "unknown" else row.model.value
    ensures KeyOf(row, true) == ProviderFor(KeyOf(row, false))
  {
  }

  // ---------------------------------------------------------------------
  // String order
  // ---------------------------------------------------------------------

  predicate StrLt(a: string, b: string) {
    LexLt(Codes(a), Codes(b))
  }

  ghost predicate Ascending(names: seq<string>) {
    forall i, j :: 0 <= i < j < |names| ==> StrLt(names[i], names[j])
  }

  lemma StrOrder(a: string, b: string)
    ensures a == b || StrLt(a, b) || StrLt(b, a)
    ensures !(StrLt(a, b) && StrLt(b, a)) && !StrLt(a, a)
  {
    LexTotal(Codes(a), Codes(b));
    LexTotal(Codes(a), Codes(a));
    if LexLe(Codes(a), Codes(b)) && LexLe(Codes(b), Codes(a)) {
      LexAntisymmetric(Codes(a), Codes(b));
      CodesInjective(a, b);
    }
  }

  lemma StrTransitive(a: string, b: string, c: string)
    requires StrLt(a, b) && StrLt(b, c)
    ensures StrLt(a, c)
  {
    LexTotal(Codes(a), Codes(b));
    LexTotal(Codes(b), Codes(c));
    if LexLe(Codes(c), Codes(a)) {
      LexTransitive(Codes(c), Codes(a), Codes(b));
    }
  }

  lemma {:induction false} AscendingUnique(a: seq<string>, b: seq<string>)
    requires Ascending(a) && Ascending(b)
    requires forall x :: x in a <==> x in b
    ensures a == b
  {
    if a == [] {
      assert forall i :: 0 <= i < |b| ==> b[i] in b;
    } else {
      hide StrLt;
      assert a[0] in a;
      var i :| 0 <= i < |b| && b[i] == a[0];
      assert b[0] in b;
      var j :| 0 <= j < |a| && a[j] == b[0];
      StrOrder(a[0], b[0]);
      assert a[0] == b[0];
      assert a == [a[0]] + a[1..] && b == [b[0]] + b[1..];
      forall x ensures x in a[1..] <==> x in b[1..] {
        StrOrder(a[0], a[0]);
        TailMembers(a, x);
        TailMembers(b, x);
      }
      AscendingUnique(a[1..], b[1..]);
    }
  }

  lemma TailMembers(a: seq<string>, x: string)
    requires a != [] && Ascending(a)
    ensures x in a[1..] <==> x in a && x != a[0]
  {
    hide StrLt;
    StrOrder(a[0], a[0]);
    if x in a && x != a[0] {
      var i :| 0 <= i < |a| && a[i] == x;
      assert a[1..][i - 1] == x;
    }
    if x in a[1..] {
      var i :| 0 <= i < |a[1..]| && a[1..][i] == x;
      assert a[i + 1] == x && StrLt(a[0], x);
    }
  }

  function InsertKey(names: seq<string>, k: string): seq<string> {
    if names == [] then [k]
    else if StrLt(names[0], k) then [names[0]] + InsertKey(names[1..], k)
    else [k] + names
  }

  lemma {:induction false} InsertKeyAscending(names: seq<string>, k: string)
    requires Ascending(names) && k !in names
    ensures Ascending(InsertKey(names, k))
    ensures forall x :: x in InsertKey(names, k) <==> x == k || x in names
  {
    hide StrLt;
    var r := InsertKey(names, k);
    if names == [] {
    } else if StrLt(names[0], k) {
      var rest := InsertKey(names[1..], k);
      InsertKeyAscending(names[1..], k);
      assert r == [names[0]] + rest && names == [names[0]] + names[1..];
      forall j | 0 <= j < |rest| ensures StrLt(names[0], rest[j]) {
        assert rest[j] in rest;
        TailMembers(names, rest[j]);
        if rest[j] != k {
          var q :| 0 <= q < |names[1..]| && names[1..][q] == rest[j];
          assert names[q + 1] == rest[j];
        }
      }
    } else {
      StrOrder(names[0], k);
      forall j | 0 <= j < |names| ensures StrLt(k, names[j]) {
        if j > 0 {
          StrTransitive(k, names[0], names[j]);
        }
      }
    }
  }

  /** `sorted(d)`: a dict's keys in order. */
  method SortedKeys(keys: set<string>) returns (names: seq<string>)
    ensures Ascending(names) && forall x :: x in names <==> x in keys
  {
    names := [];
    var left := keys;
    while left != {}
      invariant left <= keys && Ascending(names)
      invariant forall x :: x in names <==> x in keys && x !in left
      decreases left
    {
      var k :| k in left;
      InsertKeyAscending(names, k);
      names := InsertKey(names, k);
      left := left - {k};
    }
  }

  // ---------------------------------------------------------------------
  // What a fold holds
  // ---------------------------------------------------------------------

  function PointValues(points: seq<Point>, ts: string): seq<real> {
    if points == [] then []
    else
      var init, last := PointValues(points[..|points| - 1], ts), points[|points| - 1];
      if last.ts == ts then init + [last.value] else init
  }

  /** Every value recorded under `key` at `ts`, in row order. */
  function Values(matrix: seq<Row>, byProvider: bool, key: string, ts: string): seq<real> {
    if matrix == [] then []
    else
      var init, last := Values(matrix[..|matrix| - 1], byProvider, key, ts), matrix[|matrix| - 1];
      if KeyOf(last, byProvider) == key then init + PointValues(last.points, ts) else init
  }

  lemma {:induction false} PointValuesIs(a: seq<Point>, b: seq<Point>, p: Point, ts: string)
    ensures PointValues([], ts) == [] && PointValues([p], ts) == (if p.ts == ts then [p.value] else [])
    ensures PointValues(a + b, ts) == PointValues(a, ts) + PointValues(b, ts)
    decreases |b|
  {
    assert [p][..0] == [];
    if b == [] {
      assert a + b == a && PointValues(a, ts) + PointValues(b, ts) == PointValues(a, ts);
    } else {
      PointValuesIs(a, b[..|b| - 1], p, ts);
      assert (a + b)[..|a + b| - 1] == a + b[..|b| - 1];
    }
  }

  /** What is recorded under a key at a time: of the rows with that key, the values at
      that time, row by row. */
  lemma {:induction false} ValuesIs(a: seq<Row>, b: seq<Row>, row: Row, byProvider: bool, key: string, ts: string)
    ensures Values([], byProvider, key, ts) == []
    ensures Values([row], byProvider, key, ts) ==
      if KeyOf(row, byProvider) == key then PointValues(row.points, ts) else []
    ensures Values(a + b, byProvider, key, ts) == Values(a, byProvider, key, ts) + Values(b, byProvider, key, ts)
    decreases |b|
  {
    OneRow(row, byProvider, key, ts);
    if b == [] {
      assert a + b == a;
      hide *;
      assert Values(a, byProvider, key, ts) + [] == Values(a, byProvider, key, ts);
    } else {
      var init, last := b[..|b| - 1], b[|b| - 1];
      assert b == init + [last] && a + b == a + init + [last];
      hide *;
      ValuesIs(a, init, row, byProvider, key, ts);
      ValuesAppend(init, last, byProvider, key, ts);
      ValuesAppend(a + init, last, byProvider, key, ts);
      var more := if KeyOf(last, byProvider) == key then PointValues(last.points, ts) else [];
      Regroup(Values(a, byProvider, key, ts), Values(init, byProvider, key, ts), more);
    }
  }

  lemma OneRow(row: Row, byProvider: bool, key: string, ts: string)
    ensures Values([row], byProvider, key, ts) ==
      if KeyOf(row, byProvider) == key then PointValues(row.points, ts) else []
  {
    hide KeyOf;
    hide PointValues;
    assert [row][..0] == [];
    assert [] + PointValues(row.points, ts) == PointValues(row.points, ts);
  }

  predicate HasKey(matrix: seq<Row>, byProvider: bool, key: string) {
    exists i :: 0 <= i < |matrix| && KeyOf(matrix[i], byProvider) == key
  }

  function Sum(vals: seq<real>): real {
    if vals == [] then 0.0 else Sum(vals[..|vals| - 1]) + vals[|vals| - 1]
  }

  function Combined(vals: seq<real>, mean: bool): real
    requires vals != []
  {
    if mean then Sum(vals) / (|vals| as real) else Sum(vals)
  }

  function Names(out: seq<Series>): (names: seq<string>)
    ensures |names| == |out|
  {
    seq(|out|, i requires 0 <= i < |out| => out[i].name)
  }

  function Stamps(points: seq<Point>): (stamps: seq<string>)
    ensures |stamps| == |points|
  {
    seq(|points|, i requires 0 <= i < |points| => points[i].ts)
  }

  /** One series: a point for each timestamp its key has values at, in ascending
      order, carrying their sum or mean. */
  ghost predicate IsSeries(s: Series, matrix: seq<Row>, byProvider: bool, mean: bool) {
    Ascending(Stamps(s.points)) &&
    (forall ts :: ts in Stamps(s.points) <==> Values(matrix, byProvider, s.name, ts) != []) &&
    forall i :: 0 <= i < |s.points| ==>
      Values(matrix, byProvider, s.name, s.points[i].ts) != [] &&
      s.points[i].value == Combined(Values(matrix, byProvider, s.name, s.points[i].ts), mean)
  }

  /** The whole result: one series for each key that occurs, in ascending order. */
  ghost predicate IsFold(out: seq<Series>, matrix: seq<Row>, byProvider: bool, mean: bool) {
    Ascending(Names(out)) &&
    (forall key :: key in Names(out) <==> HasKey(matrix, byProvider, key)) &&
    forall i :: 0 <= i < |out| ==> IsSeries(out[i], matrix, byProvider, mean)
  }

  // ---------------------------------------------------------------------
  // The nested dictionary
  // ---------------------------------------------------------------------

  type Bucket = map<string, seq<real>>

  function At(bucket: Bucket, ts: string): seq<real> {
    if ts in bucket then bucket[ts] else []
  }

  ghost predicate NoEmptyLists(bucket: Bucket) {
    forall ts :: ts in bucket ==> bucket[ts] != []
  }

  /** `r` is `bucket` with the points' values appended to the lists of their timestamps. */
  ghost predicate Filled(r: Bucket, bucket: Bucket, points: seq<Point>) {
    NoEmptyLists(r) && forall ts :: At(r, ts) == At(bucket, ts) + PointValues(points, ts)
  }

  lemma PointsAppend(points: seq<Point>, p: Point, ts: string)
    ensures PointValues(points + [p], ts) == PointValues(points, ts) + if p.ts == ts then [p.value] else []
  {
    assert (points + [p])[..|points|] == points;
    assert PointValues(points, ts) + [] == PointValues(points, ts);
  }

  lemma NothingFilled(bucket: Bucket)
    requires NoEmptyLists(bucket)
    ensures Filled(bucket, bucket, [])
  {
    hide At;
  }

  lemma FillOne(r: Bucket, bucket: Bucket, points: seq<Point>, p: Point)
    requires Filled(r, bucket, points)
    ensures Filled(r[p.ts := At(r, p.ts) + [p.value]], bucket, points + [p])
  {
    hide PointValues;
    var next, all := r[p.ts := At(r, p.ts) + [p.value]], points + [p];
    forall ts ensures At(next, ts) == At(bucket, ts) + PointValues(all, ts) {
      PointsAppend(points, p, ts);
      assert At(r, ts) == At(bucket, ts) + PointValues(points, ts);
      Regroup(At(bucket, ts), PointValues(points, ts), if p.ts == ts then [p.value] else []);
      assert At(r, ts) + [] == At(r, ts);
    }
  }

  lemma Regroup(a: seq<real>, b: seq<real>, c: seq<real>)
    ensures a + (b + c) == a + b + c
  {
  }

  lemma NextPoint(points: seq<Point>, i: nat)
    requires i < |points|
    ensures points[..i] + [points[i]] == points[..i + 1]
  {
  }

  /** `bucket.setdefault(ts, []).append(value)` for each point of a row. */
  method FillBucket(bucket: Bucket, points: seq<Point>) returns (r: Bucket)
    requires NoEmptyLists(bucket)
    ensures Filled(r, bucket, points)
  {
    r := bucket;
    NothingFilled(bucket);
    hide *;
    for i := 0 to |points|
      invariant Filled(r, bucket, points[..i])
    {
      FillOne(r, bucket, points[..i], points[i]);
      NextPoint(points, i);
      r := r[points[i].ts := At(r, points[i].ts) + [points[i].value]];
    }
    assert points[..|points|] == points;
  }

  ghost predicate Aggregates(agg: map<string, Bucket>, matrix: seq<Row>, byProvider: bool) {
    (forall key :: key in agg <==> HasKey(matrix, byProvider, key)) &&
    (forall key :: key in agg ==> NoEmptyLists(agg[key])) &&
    forall key, ts :: key in agg ==> At(agg[key], ts) == Values(matrix, byProvider, key, ts)
  }

  lemma {:induction false} NoKeyNoValues(matrix: seq<Row>, byProvider: bool, key: string, ts: string)
    requires !HasKey(matrix, byProvider, key)
    ensures Values(matrix, byProvider, key, ts) == []
  {
    if matrix != [] {
      var init := matrix[..|matrix| - 1];
      assert forall i :: 0 <= i < |init| ==> init[i] == matrix[i];
      NoKeyNoValues(init, byProvider, key, ts);
      assert KeyOf(matrix[|matrix| - 1], byProvider) != key;
    }
  }

  /** The bucket a row's values go into: the one its key has, or a new one. */
  function BucketFor(agg: map<string, Bucket>, key: string): Bucket {
    if key in agg then agg[key] else map[]
  }

  lemma NothingAggregated(byProvider: bool)
    ensures Aggregates(map[], [], byProvider)
  {
  }

  lemma BucketReady(agg: map<string, Bucket>, matrix: seq<Row>, byProvider: bool, key: string)
    requires Aggregates(agg, matrix, byProvider)
    ensures NoEmptyLists(BucketFor(agg, key))
  {
    hide HasKey;
  }

  method Aggregate(matrix: seq<Row>, byProvider: bool) returns (agg: map<string, Bucket>)
    ensures Aggregates(agg, matrix, byProvider)
  {
    agg := map[];
    NothingAggregated(byProvider);
    hide *;
    for i := 0 to |matrix|
      invariant Aggregates(agg, matrix[..i], byProvider)
    {
      var key := KeyOf(matrix[i], byProvider);
      var before := BucketFor(agg, key);
      BucketReady(agg, matrix[..i], byProvider, key);
      var bucket := FillBucket(before, matrix[i].points);
      RowAggregated(agg, matrix[..i], matrix[i], byProvider, bucket);
      assert matrix[..i] + [matrix[i]] == matrix[..i + 1];
      agg := agg[key := bucket];
    }
    assert matrix[..|matrix|] == matrix;
  }

  lemma KeysAppend(rows: seq<Row>, row: Row, byProvider: bool, key: string)
    ensures HasKey(rows + [row], byProvider, key) <==> HasKey(rows, byProvider, key) || KeyOf(row, byProvider) == key
  {
    hide KeyOf;
    var all := rows + [row];
    assert all[|rows|] == row && forall i :: 0 <= i < |rows| ==> all[i] == rows[i];
  }

  lemma ValuesAppend(rows: seq<Row>, row: Row, byProvider: bool, key: string, ts: string)
    ensures Values(rows + [row], byProvider, key, ts) ==
      Values(rows, byProvider, key, ts) + if KeyOf(row, byProvider) == key then PointValues(row.points, ts) else []
  {
    assert (rows + [row])[..|rows|] == rows;
  }

  lemma RowAggregated(agg: map<string, Bucket>, rows: seq<Row>, row: Row, byProvider: bool, bucket: Bucket)
    requires Aggregates(agg, rows, byProvider)
    requires Filled(bucket, BucketFor(agg, KeyOf(row, byProvider)), row.points)
    ensures Aggregates(agg[KeyOf(row, byProvider) := bucket], rows + [row], byProvider)
  {
    hide HasKey;
    hide KeyOf;
    hide Values;
    hide PointValues;
    var key, next := KeyOf(row, byProvider), agg[KeyOf(row, byProvider) := bucket];
    forall k ensures k in next <==> HasKey(rows + [row], byProvider, k) {
      KeysAppend(rows, row, byProvider, k);
    }
    forall k, ts | k in next ensures At(next[k], ts) == Values(rows + [row], byProvider, k, ts) {
      ValuesAppend(rows, row, byProvider, k, ts);
      if k == key && key !in agg {
        NoKeyNoValues(rows, byProvider, key, ts);
      }
    }
  }

  /** The bucket of one key. */
  ghost predicate BucketOf(bucket: Bucket, matrix: seq<Row>, byProvider: bool, key: string) {
    NoEmptyLists(bucket) && forall ts :: At(bucket, ts) == Values(matrix, byProvider, key, ts)
  }

  method BuildSeries(name: string, bucket: Bucket, mean: bool, ghost matrix: seq<Row>, ghost byProvider: bool)
    returns (s: Series)
    requires BucketOf(bucket, matrix, byProvider, name)
    ensures s.name == name && IsSeries(s, matrix, byProvider, mean)
  {
    hide Values;
    hide Combined;
    hide Ascending;
    var stamps := SortedKeys(bucket.Keys);
    var pts: seq<Point> := [];
    for i := 0 to |stamps|
      invariant |pts| == i
      invariant forall k :: 0 <= k < i ==> pts[k].ts == stamps[k] && stamps[k] in bucket
      invariant forall k :: 0 <= k < i ==> pts[k].value == Combined(bucket[stamps[k]], mean)
    {
      assert stamps[i] in stamps;
      var vals := bucket[stamps[i]];
      pts := pts + [Point(stamps[i], Combined(vals, mean))];
    }
    s := Series(name, pts);
    assert Stamps(pts) == stamps;
    forall ts ensures ts in stamps <==> Values(matrix, byProvider, name, ts) != [] {
      assert At(bucket, ts) == Values(matrix, byProvider, name, ts);
    }
    forall i | 0 <= i < |pts|
      ensures Values(matrix, byProvider, name, pts[i].ts) != []
      ensures pts[i].value == Combined(Values(matrix, byProvider, name, pts[i].ts), mean)
    {
      assert At(bucket, pts[i].ts) == Values(matrix, byProvider, name, pts[i].ts);
    }
  }

  lemma KeyHasBucket(agg: map<string, Bucket>, matrix: seq<Row>, byProvider: bool, keys: seq<string>, i: nat)
    requires Aggregates(agg, matrix, byProvider) && i < |keys|
    requires forall x :: x in keys <==> x in agg.Keys
    ensures keys[i] in agg && BucketOf(agg[keys[i]], matrix, byProvider, keys[i])
  {
    hide HasKey;
    hide Values;
    assert keys[i] in keys;
  }

  /** One series under each key, in the keys' order. */
  ghost predicate EachSeries(out: seq<Series>, keys: seq<string>, matrix: seq<Row>, byProvider: bool, mean: bool) {
    |out| <= |keys| &&
    forall k :: 0 <= k < |out| ==> out[k].name == keys[k] && IsSeries(out[k], matrix, byProvider, mean)
  }

  lemma OneMoreSeries(out: seq<Series>, keys: seq<string>, s: Series, matrix: seq<Row>, byProvider: bool, mean: bool)
    requires EachSeries(out, keys, matrix, byProvider, mean) && |out| < |keys|
    requires s.name == keys[|out|] && IsSeries(s, matrix, byProvider, mean)
    ensures EachSeries(out + [s], keys, matrix, byProvider, mean)
  {
    hide IsSeries;
  }

  lemma AllSeries(out: seq<Series>, keys: seq<string>, agg: map<string, Bucket>, matrix: seq<Row>, byProvider: bool,
                  mean: bool)
    requires EachSeries(out, keys, matrix, byProvider, mean) && |out| == |keys|
    requires Aggregates(agg, matrix, byProvider)
    requires Ascending(keys) && forall x :: x in keys <==> x in agg.Keys
    ensures IsFold(out, matrix, byProvider, mean)
  {
    hide IsSeries;
    hide HasKey;
    assert Names(out) == keys;
  }

  /** `_fold`. */
  method Fold(matrix: seq<Row>, byProvider: bool, mean: bool) returns (out: seq<Series>)
    ensures IsFold(out, matrix, byProvider, mean)
  {
    var agg := Aggregate(matrix, byProvider);
    var keys := SortedKeys(agg.Keys);
    out := [];
    assert EachSeries(out, keys, matrix, byProvider, mean);
    hide *;
    for i := 0 to |keys|
      invariant |out| == i && EachSeries(out, keys, matrix, byProvider, mean)
    {
      KeyHasBucket(agg, matrix, byProvider, keys, i);
      var s := BuildSeries(keys[i], agg[keys[i]], mean, matrix, byProvider);
      OneMoreSeries(out, keys, s, matrix, byProvider, mean);
      out := out + [s];
    }
    AllSeries(out, keys, agg, matrix, byProvider, mean);
  }
}
