/** What folding keeps: totals, independence of row order, and the agreement of
    folding by provider with folding by model first. */
module FoldLaws {
  import opened Bytes
  import opened SeriesFold

  /** A folded result as a matrix again: each series a row under its own name. */
  function AsMatrix(out: seq<Series>): (matrix: seq<Row>)
    ensures |matrix| == |out|
  {
    seq(|out|, i requires 0 <= i < |out| => Row(Some(out[i].name), out[i].points))
  }

  /** The total at `ts` over the rows whose key is picked. */
  function PickedTotal(matrix: seq<Row>, byProvider: bool, pick: string -> bool, ts: string): real {
    if matrix == [] then 0.0
    else
      var init, last := PickedTotal(matrix[..|matrix| - 1], byProvider, pick, ts), matrix[|matrix| - 1];
      if pick(KeyOf(last, byProvider)) then init + Sum(PointValues(last.points, ts)) else init
  }

  /** The total at `ts` over every row. */
  function Total(matrix: seq<Row>, ts: string): real {
    if matrix == [] then 0.0
    else Total(matrix[..|matrix| - 1], ts) + Sum(PointValues(matrix[|matrix| - 1].points, ts))
  }

  lemma {:induction false} TotalIs(a: seq<Row>, b: seq<Row>, row: Row, ts: string)
    ensures Total([], ts) == 0.0 && Total([row], ts) == Sum(PointValues(row.points, ts))
    ensures Total(a + b, ts) == Total(a, ts) + Total(b, ts)
    decreases |b|
  {
    hide Sum;
    hide PointValues;
    assert [row][..0] == [];
    if b == [] {
      assert a + b == a;
    } else {
      TotalIs(a, b[..|b| - 1], row, ts);
      assert (a + b)[..|a + b| - 1] == a + b[..|b| - 1];
    }
  }

  /** The same total, taken name by name. */
  function NamesTotal(names: seq<string>, matrix: seq<Row>, byProvider: bool, pick: string -> bool, ts: string): real {
    if names == [] then 0.0
    else
      var init, last := NamesTotal(names[..|names| - 1], matrix, byProvider, pick, ts), names[|names| - 1];
      if pick(last) then init + Sum(Values(matrix, byProvider, last, ts)) else init
  }

  ghost predicate Distinct(names: seq<string>) {
    forall i, j :: 0 <= i < j < |names| ==> names[i] != names[j]
  }

  lemma AscendingDistinct(names: seq<string>)
    requires Ascending(names)
    ensures Distinct(names)
  {
    hide StrLt;
    forall i, j | 0 <= i < j < |names| ensures names[i] != names[j] {
      StrOrder(names[i], names[i]);
    }
  }

  lemma {:induction false} SumAppend(a: seq<real>, b: seq<real>)
    ensures Sum(a + b) == Sum(a) + Sum(b)
  {
    if b == [] {
      assert a + b == a;
    } else {
      SumAppend(a, b[..|b| - 1]);
      assert (a + b)[..|a + b| - 1] == a + b[..|b| - 1];
    }
  }

  lemma {:induction false} NamesTotalRow(names: seq<string>, rows: seq<Row>, row: Row, byProvider: bool,
                                         pick: string -> bool, ts: string)
    requires Distinct(names)
    ensures NamesTotal(names, rows + [row], byProvider, pick, ts)
      == NamesTotal(names, rows, byProvider, pick, ts)
         + (if KeyOf(row, byProvider) in names && pick(KeyOf(row, byProvider))
            then Sum(PointValues(row.points, ts)) else 0.0)
  {
    if names != [] {
      var init, last := names[..|names| - 1], names[|names| - 1];
      NamesTotalRow(init, rows, row, byProvider, pick, ts);
      assert (rows + [row])[..|rows|] == rows;
      SumAppend(Values(rows, byProvider, last, ts), PointValues(row.points, ts));
      assert names == init + [last];
      assert last !in init by {
        assert forall i :: 0 <= i < |init| ==> init[i] == names[i];
      }
    }
  }

  /** Distinct names that cover the rows split their total without loss or overlap. */
  lemma {:induction false} NamesPartitionRows(names: seq<string>, matrix: seq<Row>, byProvider: bool,
                                             pick: string -> bool, ts: string)
    requires Distinct(names)
    requires forall key :: HasKey(matrix, byProvider, key) ==> key in names
    ensures NamesTotal(names, matrix, byProvider, pick, ts) == PickedTotal(matrix, byProvider, pick, ts)
  {
    if matrix == [] {
      NoRowsNoTotal(names, byProvider, pick, ts);
    } else {
      var init, last := matrix[..|matrix| - 1], matrix[|matrix| - 1];
      assert init + [last] == matrix;
      forall key
        ensures HasKey(matrix, byProvider, key) <==> HasKey(init, byProvider, key) || KeyOf(last, byProvider) == key
      {
        KeysAppend(init, last, byProvider, key);
      }
      hide HasKey;
      hide KeyOf;
      NamesPartitionRows(names, init, byProvider, pick, ts);
      NamesTotalRow(names, init, last, byProvider, pick, ts);
    }
  }

  lemma {:induction false} NoRowsNoTotal(names: seq<string>, byProvider: bool, pick: string -> bool, ts: string)
    ensures NamesTotal(names, [], byProvider, pick, ts) == 0.0
  {
    if names != [] {
      NoRowsNoTotal(names[..|names| - 1], byProvider, pick, ts);
    }
  }

  lemma {:induction false} DistinctPoints(points: seq<Point>, ts: string)
    requires Distinct(Stamps(points))
    ensures ts !in Stamps(points) ==> PointValues(points, ts) == []
    ensures forall i :: 0 <= i < |points| && points[i].ts == ts ==> PointValues(points, ts) == [points[i].value]
  {
    if points != [] {
      var init, last := points[..|points| - 1], points[|points| - 1];
      assert Stamps(points) == Stamps(init) + [last.ts];
      assert Distinct(Stamps(init)) by {
        assert forall i :: 0 <= i < |init| ==> Stamps(init)[i] == Stamps(points)[i];
      }
      DistinctPoints(init, ts);
      forall i | 0 <= i < |points| && points[i].ts == ts ensures PointValues(points, ts) == [points[i].value] {
        if i < |init| {
          assert init[i] == points[i] && Stamps(points)[i] == ts && Stamps(points)[|init|] == last.ts;
        } else {
          assert ts !in Stamps(init) by {
            assert forall j :: 0 <= j < |init| ==> Stamps(init)[j] == Stamps(points)[j];
            assert Stamps(points)[|init|] == ts;
          }
        }
      }
    }
  }

  /** A summed series, read as a row, holds its key's sum at every timestamp, and
      nothing where its key has nothing. */
  lemma SeriesShape(s: Series, matrix: seq<Row>, byProvider: bool, mean: bool, ts: string)
    requires IsSeries(s, matrix, byProvider, mean)
    ensures Ascending(Stamps(s.points))
    ensures ts in Stamps(s.points) <==> Values(matrix, byProvider, s.name, ts) != []
  {
    hide Values;
    hide Combined;
    hide Ascending;
  }

  lemma StampAt(points: seq<Point>, ts: string) returns (i: nat)
    requires ts in Stamps(points)
    ensures i < |points| && points[i].ts == ts
  {
    i :| i < |points| && Stamps(points)[i] == ts;
  }

  lemma SumOfOne(v: real)
    ensures Sum([v]) == v
  {
    assert [v][..0] == [];
    assert Sum([v]) == Sum([v][..0]) + v;
  }

  lemma SeriesHoldsSum(s: Series, matrix: seq<Row>, byProvider: bool, ts: string)
    requires IsSeries(s, matrix, byProvider, false)
    ensures Sum(PointValues(s.points, ts)) == Sum(Values(matrix, byProvider, s.name, ts))
    ensures PointValues(s.points, ts) == [] <==> Values(matrix, byProvider, s.name, ts) == []
  {
    SeriesShape(s, matrix, byProvider, false, ts);
    AscendingDistinct(Stamps(s.points));
    DistinctPoints(s.points, ts);
    if ts in Stamps(s.points) {
      var i := StampAt(s.points, ts);
      SeriesPoint(s, matrix, byProvider, false, i);
      SumOfOne(s.points[i].value);
      hide *;
      CombinedIsSum(Values(matrix, byProvider, s.name, ts));
    }
  }

  lemma CombinedIsSum(vals: seq<real>)
    requires vals != []
    ensures Combined(vals, false) == Sum(vals)
  {
  }

  lemma {:induction false} SeriesByNames(out: seq<Series>, matrix: seq<Row>, byProvider: bool,
                                         pick: string -> bool, ts: string)
    requires forall i :: 0 <= i < |out| ==> IsSeries(out[i], matrix, byProvider, false)
    ensures PickedTotal(AsMatrix(out), false, pick, ts) == NamesTotal(Names(out), matrix, byProvider, pick, ts)
  {
    hide IsSeries;
    if out != [] {
      var init, last := out[..|out| - 1], out[|out| - 1];
      SeriesByNames(init, matrix, byProvider, pick, ts);
      assert AsMatrix(out)[..|out| - 1] == AsMatrix(init);
      assert Names(out)[..|out| - 1] == Names(init);
      SeriesHoldsSum(last, matrix, byProvider, ts);
    }
  }

  /** Folding with sums keeps every total: over any choice of keys, at every
      timestamp, the folded series add up to what the rows did. */
  lemma {:induction false} FoldKeepsPickedTotals(out: seq<Series>, matrix: seq<Row>, byProvider: bool,
                                                 pick: string -> bool, ts: string)
    requires IsFold(out, matrix, byProvider, false)
    ensures PickedTotal(AsMatrix(out), false, pick, ts) == PickedTotal(matrix, byProvider, pick, ts)
  {
    AscendingDistinct(Names(out));
    SeriesByNames(out, matrix, byProvider, pick, ts);
    NamesPartitionRows(Names(out), matrix, byProvider, pick, ts);
  }

  lemma {:induction false} PickAll(matrix: seq<Row>, byProvider: bool, ts: string)
    ensures PickedTotal(matrix, byProvider, k => true, ts) == Total(matrix, ts)
  {
    if matrix != [] {
      PickAll(matrix[..|matrix| - 1], byProvider, ts);
    }
  }

  /** Conservation: the total at every timestamp is the same before and after. */
  lemma FoldConserves(out: seq<Series>, matrix: seq<Row>, byProvider: bool, ts: string)
    requires IsFold(out, matrix, byProvider, false)
    ensures Total(AsMatrix(out), ts) == Total(matrix, ts)
  {
    FoldKeepsPickedTotals(out, matrix, byProvider, k => true, ts);
    PickAll(AsMatrix(out), false, ts);
    PickAll(matrix, byProvider, ts);
  }

  // ---------------------------------------------------------------------
  // The result is determined
  // ---------------------------------------------------------------------

  lemma SeriesUnique(s: Series, t: Series, matrix: seq<Row>, byProvider: bool, mean: bool)
    requires s.name == t.name && IsSeries(s, matrix, byProvider, mean) && IsSeries(t, matrix, byProvider, mean)
    ensures s == t
  {
    AscendingUnique(Stamps(s.points), Stamps(t.points));
    forall i | 0 <= i < |s.points| ensures s.points[i] == t.points[i] {
      assert Stamps(s.points)[i] == Stamps(t.points)[i];
    }
    assert s.points == t.points;
  }

  /** Strictly ascending names and timestamps leave one possible answer. */
  lemma FoldUnique(a: seq<Series>, b: seq<Series>, matrix: seq<Row>, byProvider: bool, mean: bool)
    requires IsFold(a, matrix, byProvider, mean) && IsFold(b, matrix, byProvider, mean)
    ensures a == b
  {
    hide IsSeries;
    AscendingUnique(Names(a), Names(b));
    forall i | 0 <= i < |a| ensures a[i] == b[i] {
      assert Names(a)[i] == Names(b)[i];
      SeriesUnique(a[i], b[i], matrix, byProvider, mean);
    }
  }

  // ---------------------------------------------------------------------
  // By provider, directly or through the models
  // ---------------------------------------------------------------------

  /** Something is recorded under `key` at `ts`. */
  ghost predicate Recorded(matrix: seq<Row>, byProvider: bool, key: string, ts: string, i: nat) {
    i < |matrix| && KeyOf(matrix[i], byProvider) == key && PointValues(matrix[i].points, ts) != []
  }

  ghost predicate AnyRecorded(matrix: seq<Row>, byProvider: bool, key: string, ts: string) {
    exists i :: Recorded(matrix, byProvider, key, ts, i)
  }

  lemma RecordedSnoc(rows: seq<Row>, row: Row, byProvider: bool, key: string, ts: string)
    ensures AnyRecorded(rows + [row], byProvider, key, ts) <==>
      AnyRecorded(rows, byProvider, key, ts) || (KeyOf(row, byProvider) == key && PointValues(row.points, ts) != [])
  {
    hide KeyOf;
    hide PointValues;
    var all := rows + [row];
    forall i: nat ensures Recorded(all, byProvider, key, ts, i) <==>
      Recorded(rows, byProvider, key, ts, i) ||
      (i == |rows| && KeyOf(row, byProvider) == key && PointValues(row.points, ts) != [])
    {
      assert i < |rows| ==> all[i] == rows[i];
    }
    if KeyOf(row, byProvider) == key && PointValues(row.points, ts) != [] {
      assert Recorded(all, byProvider, key, ts, |rows|);
    }
  }

  lemma {:induction false} RecordedIffValues(matrix: seq<Row>, byProvider: bool, key: string, ts: string)
    ensures Values(matrix, byProvider, key, ts) != [] <==> AnyRecorded(matrix, byProvider, key, ts)
  {
    if matrix != [] {
      var init, last := matrix[..|matrix| - 1], matrix[|matrix| - 1];
      RecordedIffValues(init, byProvider, key, ts);
      assert init + [last] == matrix;
      RecordedSnoc(init, last, byProvider, key, ts);
      hide AnyRecorded;
    }
  }

  lemma {:induction false} ProviderTotals(matrix: seq<Row>, key: string, ts: string)
    ensures PickedTotal(matrix, false, m => ProviderFor(m) == key, ts) == Sum(Values(matrix, true, key, ts))
  {
    if matrix != [] {
      var init, last := matrix[..|matrix| - 1], matrix[|matrix| - 1];
      ProviderTotals(init, key, ts);
      SumAppend(Values(init, true, key, ts), PointValues(last.points, ts));
    }
  }

  lemma SameProviderSums(byModel: seq<Series>, matrix: seq<Row>, key: string, ts: string)
    requires IsFold(byModel, matrix, false, false)
    ensures Sum(Values(AsMatrix(byModel), true, key, ts)) == Sum(Values(matrix, true, key, ts))
  {
    ProviderTotals(AsMatrix(byModel), key, ts);
    FoldKeepsPickedTotals(byModel, matrix, false, m => ProviderFor(m) == key, ts);
    ProviderTotals(matrix, key, ts);
  }

  lemma SameProviderStamps(byModel: seq<Series>, matrix: seq<Row>, key: string, ts: string)
    requires IsFold(byModel, matrix, false, false)
    ensures Values(AsMatrix(byModel), true, key, ts) != [] <==> Values(matrix, true, key, ts) != []
  {
    hide Values;
    var refold := AsMatrix(byModel);
    RecordedIffValues(refold, true, key, ts);
    RecordedIffValues(matrix, true, key, ts);
    if i: nat :| Recorded(refold, true, key, ts, i) {
      SeriesHoldsSum(byModel[i], matrix, false, ts);
      RecordedIffValues(matrix, false, byModel[i].name, ts);
      var j: nat :| Recorded(matrix, false, byModel[i].name, ts, j);
      assert Recorded(matrix, true, key, ts, j);
    }
    if j: nat :| Recorded(matrix, true, key, ts, j) {
      var model := KeyOf(matrix[j], false);
      assert Recorded(matrix, false, model, ts, j);
      RecordedIffValues(matrix, false, model, ts);
      assert HasKey(matrix, false, model);
      var i :| 0 <= i < |byModel| && Names(byModel)[i] == model;
      SeriesHoldsSum(byModel[i], matrix, false, ts);
      assert Recorded(refold, true, key, ts, i);
    }
  }

  lemma SameProviderKeys(byModel: seq<Series>, matrix: seq<Row>, key: string)
    requires IsFold(byModel, matrix, false, false)
    ensures HasKey(AsMatrix(byModel), true, key) <==> HasKey(matrix, true, key)
  {
    var refold := AsMatrix(byModel);
    if HasKey(refold, true, key) {
      var i :| 0 <= i < |refold| && KeyOf(refold[i], true) == key;
      assert Names(byModel)[i] in Names(byModel);
      var j :| 0 <= j < |matrix| && KeyOf(matrix[j], false) == byModel[i].name;
      assert KeyOf(matrix[j], true) == key;
    }
    if HasKey(matrix, true, key) {
      var j :| 0 <= j < |matrix| && KeyOf(matrix[j], true) == key;
      assert HasKey(matrix, false, KeyOf(matrix[j], false));
      var i :| 0 <= i < |byModel| && Names(byModel)[i] == KeyOf(matrix[j], false);
      assert KeyOf(refold[i], true) == key;
    }
  }

  /** Folding by provider is folding by model and then folding that by provider. */
  lemma ProviderThroughModels(byModel: seq<Series>, twice: seq<Series>, direct: seq<Series>, matrix: seq<Row>)
    requires IsFold(byModel, matrix, false, false)
    requires IsFold(twice, AsMatrix(byModel), true, false)
    requires IsFold(direct, matrix, true, false)
    ensures twice == direct
  {
    forall key ensures HasKey(AsMatrix(byModel), true, key) <==> HasKey(matrix, true, key) {
      SameProviderKeys(byModel, matrix, key);
    }
    forall i | 0 <= i < |twice| ensures IsSeries(twice[i], matrix, true, false) {
      SeriesTransfers(twice[i], byModel, matrix);
    }
    hide IsSeries;
    FoldUnique(twice, direct, matrix, true, false);
  }

  lemma SeriesTransfers(s: Series, byModel: seq<Series>, matrix: seq<Row>)
    requires IsFold(byModel, matrix, false, false)
    requires IsSeries(s, AsMatrix(byModel), true, false)
    ensures IsSeries(s, matrix, true, false)
  {
    hide IsFold;
    forall ts
      ensures Values(AsMatrix(byModel), true, s.name, ts) != [] <==> Values(matrix, true, s.name, ts) != []
      ensures Sum(Values(AsMatrix(byModel), true, s.name, ts)) == Sum(Values(matrix, true, s.name, ts))
    {
      SameProviderStamps(byModel, matrix, s.name, ts);
      SameProviderSums(byModel, matrix, s.name, ts);
    }
  }

  // ---------------------------------------------------------------------
  // Row order
  // ---------------------------------------------------------------------

  function Contribution(row: Row, byProvider: bool, key: string, ts: string): seq<real> {
    if KeyOf(row, byProvider) == key then PointValues(row.points, ts) else []
  }

  lemma ValuesSnoc(rows: seq<Row>, row: Row, byProvider: bool, key: string, ts: string)
    ensures Values(rows + [row], byProvider, key, ts)
      == Values(rows, byProvider, key, ts) + Contribution(row, byProvider, key, ts)
  {
    assert (rows + [row])[..|rows|] == rows;
  }

  lemma {:induction false} ValuesMiddle(a: seq<Row>, row: Row, b: seq<Row>, byProvider: bool, key: string, ts: string)
    ensures multiset(Values(a + [row] + b, byProvider, key, ts))
      == multiset(Values(a + b, byProvider, key, ts)) + multiset(Contribution(row, byProvider, key, ts))
  {
    hide Values;
    hide Contribution;
    if b == [] {
      assert a + [row] + b == a + [row] && a + b == a;
      ValuesSnoc(a, row, byProvider, key, ts);
    } else {
      var init, last := b[..|b| - 1], b[|b| - 1];
      ValuesMiddle(a, row, init, byProvider, key, ts);
      assert a + [row] + b == (a + [row] + init) + [last] && a + b == (a + init) + [last];
      ValuesSnoc(a + [row] + init, last, byProvider, key, ts);
      ValuesSnoc(a + init, last, byProvider, key, ts);
    }
  }

  /** The same values, as a bag, whatever the order of the rows. */
  lemma {:induction false} ValuesPermute(m: seq<Row>, n: seq<Row>, byProvider: bool, key: string, ts: string)
    requires multiset(m) == multiset(n)
    ensures multiset(Values(m, byProvider, key, ts)) == multiset(Values(n, byProvider, key, ts))
    decreases |m|
  {
    hide Values;
    hide Contribution;
    if m == [] {
      assert n == [] by { assert |n| == |multiset(n)| == |multiset(m)|; }
    } else {
      var a, b := TakeOut(m, n);
      var init, last := m[..|m| - 1], m[|m| - 1];
      ValuesPermute(init, a + b, byProvider, key, ts);
      ValuesMiddle(a, last, b, byProvider, key, ts);
      ValuesSnoc(init, last, byProvider, key, ts);
      assert m == init + [last];
    }
  }

  /** The last element of `m`, found in a rearrangement of `m` and taken out of it. */
  lemma TakeOut<T>(m: seq<T>, n: seq<T>) returns (a: seq<T>, b: seq<T>)
    requires multiset(m) == multiset(n) && m != []
    ensures n == a + [m[|m| - 1]] + b
    ensures multiset(m[..|m| - 1]) == multiset(a + b)
  {
    var init, last := m[..|m| - 1], m[|m| - 1];
    assert last in multiset(m) && last in multiset(n);
    var j :| 0 <= j < |n| && n[j] == last;
    a, b := n[..j], n[j + 1..];
    assert m == init + [last];
    assert n == a + [last] + b;
    OneOut(init, a, last, b);
  }

  lemma OneOut<T>(init: seq<T>, a: seq<T>, x: T, b: seq<T>)
    requires multiset(init + [x]) == multiset(a + [x] + b)
    ensures multiset(init) == multiset(a + b)
  {
    assert multiset(init + [x]) == multiset(init) + multiset{x};
    assert multiset(a + [x] + b) == multiset(a) + multiset{x} + multiset(b);
    assert multiset(init) == multiset(init + [x]) - multiset{x};
  }

  lemma {:induction false} SumMiddle(a: seq<real>, x: real, b: seq<real>)
    ensures Sum(a + [x] + b) == Sum(a + b) + x
  {
    SumAppend(a + [x], b);
    SumAppend(a, [x]);
    SumAppend(a, b);
    assert [x][..0] == [];
    assert Sum([x]) == Sum([x][..0]) + x;
  }

  lemma {:induction false} SumPermute(a: seq<real>, b: seq<real>)
    requires multiset(a) == multiset(b)
    ensures Sum(a) == Sum(b) && |a| == |b|
    decreases |a|
  {
    assert |a| == |multiset(a)| == |multiset(b)| == |b|;
    if a != [] {
      var p, q := TakeOut(a, b);
      SumPermute(a[..|a| - 1], p + q);
      SumMiddle(p, a[|a| - 1], q);
    }
  }

  /** Sum or mean, the fold does not depend on the order the rows come in. */
  lemma FoldIgnoresRowOrder(out: seq<Series>, out': seq<Series>, m: seq<Row>, n: seq<Row>, byProvider: bool, mean: bool)
    requires multiset(m) == multiset(n)
    requires IsFold(out, m, byProvider, mean) && IsFold(out', n, byProvider, mean)
    ensures out == out'
  {
    forall key ensures HasKey(m, byProvider, key) <==> HasKey(n, byProvider, key) {
      if HasKey(m, byProvider, key) {
        SameKeys(m, n, byProvider, key);
      }
      if HasKey(n, byProvider, key) {
        SameKeys(n, m, byProvider, key);
      }
    }
    forall i | 0 <= i < |out'| ensures IsSeries(out'[i], m, byProvider, mean) {
      SeriesPermutes(out'[i], n, m, byProvider, mean);
    }
    hide IsSeries;
    FoldUnique(out, out', m, byProvider, mean);
  }

  lemma SameKeys(m: seq<Row>, n: seq<Row>, byProvider: bool, key: string)
    requires multiset(m) == multiset(n) && HasKey(m, byProvider, key)
    ensures HasKey(n, byProvider, key)
  {
    var i :| 0 <= i < |m| && KeyOf(m[i], byProvider) == key;
    assert m[i] in multiset(n);
    var j :| 0 <= j < |n| && n[j] == m[i];
  }

  lemma SeriesPermutes(s: Series, m: seq<Row>, n: seq<Row>, byProvider: bool, mean: bool)
    requires multiset(m) == multiset(n) && IsSeries(s, m, byProvider, mean)
    ensures IsSeries(s, n, byProvider, mean)
  {
    forall ts
      ensures |Values(m, byProvider, s.name, ts)| == |Values(n, byProvider, s.name, ts)|
      ensures Sum(Values(m, byProvider, s.name, ts)) == Sum(Values(n, byProvider, s.name, ts))
    {
      ValuesPermute(m, n, byProvider, s.name, ts);
      SumPermute(Values(m, byProvider, s.name, ts), Values(n, byProvider, s.name, ts));
    }
    hide Values;
  }

  // ---------------------------------------------------------------------
  // Means
  // ---------------------------------------------------------------------

  ghost predicate AllBetween(vals: seq<real>, lo: real, hi: real) {
    forall i :: 0 <= i < |vals| ==> lo <= vals[i] <= hi
  }

  lemma {:induction false} SumBetween(vals: seq<real>, lo: real, hi: real)
    requires AllBetween(vals, lo, hi)
    ensures lo * (|vals| as real) <= Sum(vals) <= hi * (|vals| as real)
  {
    if vals != [] {
      var n := |vals| - 1;
      SumBetween(vals[..n], lo, hi);
      NextBound(lo, hi, n as real, Sum(vals[..n]), vals[n]);
      assert |vals| as real == n as real + 1.0;
    }
  }

  lemma NextBound(lo: real, hi: real, n: real, sum: real, x: real)
    requires lo * n <= sum <= hi * n && lo <= x <= hi
    ensures lo * (n + 1.0) <= sum + x <= hi * (n + 1.0)
  {
    OneMore(lo, n);
    OneMore(hi, n);
  }

  lemma OneMore(x: real, n: real)
    ensures x * (n + 1.0) == x * n + x
  {
  }

  /** With `mean`, each folded value lies between any bounds its inputs share. */
  lemma MeanBetween(s: Series, matrix: seq<Row>, byProvider: bool, i: nat, lo: real, hi: real)
    requires IsSeries(s, matrix, byProvider, true) && i < |s.points|
    requires AllBetween(Values(matrix, byProvider, s.name, s.points[i].ts), lo, hi)
    ensures lo <= s.points[i].value <= hi
  {
    hide *;
    var vals := Values(matrix, byProvider, s.name, s.points[i].ts);
    SeriesPoint(s, matrix, byProvider, true, i);
    SumBetween(vals, lo, hi);
    MeanIs(vals, s.points[i].value);
    Divide(lo, s.points[i].value, |vals| as real);
    Divide(s.points[i].value, hi, |vals| as real);
  }

  lemma SeriesPoint(s: Series, matrix: seq<Row>, byProvider: bool, mean: bool, i: nat)
    requires IsSeries(s, matrix, byProvider, mean) && i < |s.points|
    ensures var vals := Values(matrix, byProvider, s.name, s.points[i].ts);
      vals != [] && s.points[i].value == Combined(vals, mean)
  {
    hide Values;
    hide Combined;
    hide Ascending;
  }

  lemma MeanIs(vals: seq<real>, mean: real)
    requires vals != [] && mean == Combined(vals, true)
    ensures mean * (|vals| as real) == Sum(vals)
  {
    hide Sum;
  }

  lemma Divide(a: real, b: real, n: real)
    requires n > 0.0 && a * n <= b * n
    ensures a <= b
  {
    assert (b - a) * n >= 0.0;
  }
}
