/** The text exposition: when each family is one group under a single TYPE line
    (Prometheus text exposition format, "Grouping and sorting"). */
module Exposition {
  import opened Bytes
  import opened Ordering
  import opened ExporterSamples

  /** A line of the page; comments that are not TYPE lines carry no family. */
  datatype Line = TypeLine(family: string) | SampleLine(sample: Sample) | Comment

  const UP: string := "f5tmm_up"
  const DURATION: string := "f5tmm_scrape_duration_seconds"
  const SEGMENT_UP: string := "f5tmm_segment_up"

  /** The family a line belongs to, if any. */
  function FamilyOf(l: Line): Option<string> {
    match l
    case TypeLine(f) => Some(f)
    case SampleLine(s) => Some(s.metric)
    case Comment => None
  }

  // ---------------------------------------------------------------------
  // handleMetrics
  // ---------------------------------------------------------------------

  /** The sample lines, with a TYPE line wherever the metric changes. */
  function Emit(samples: seq<Sample>): seq<Line> {
    if samples == [] then []
    else
      var init, last := samples[..|samples| - 1], samples[|samples| - 1];
      var prev := if init == [] then "" else init[|init| - 1].metric;
      Emit(init) + (if last.metric != prev then [TypeLine(last.metric)] else []) + [SampleLine(last)]
  }

  function Header(up: uint64, duration: uint64, failed: bool): seq<Line> {
    [TypeLine(UP), SampleLine(Sample(UP, [], up, false)),
     TypeLine(DURATION), SampleLine(Sample(DURATION, [], duration, false))] +
    (if failed then [Comment] else [])
  }

  lemma EmitOne(head: seq<Line>, samples: seq<Sample>, i: nat)
    requires i < |samples|
    ensures var page, s := head + Emit(samples[..i]), samples[i];
      head + Emit(samples[..i + 1]) ==
      if s.metric != if i == 0 then "" else samples[i - 1].metric
      then page + [TypeLine(s.metric)] + [SampleLine(s)]
      else page + [SampleLine(s)]
  {
    assert samples[..i + 1][..i] == samples[..i];
  }

  /** The samples a page shows. */
  function Shown(page: seq<Line>): seq<Sample> {
    if page == [] then []
    else
      var init, last := Shown(page[..|page| - 1]), page[|page| - 1];
      if last.SampleLine? then init + [last.sample] else init
  }

  lemma {:induction false} ShownIs(a: seq<Line>, b: seq<Line>, l: Line)
    ensures Shown([]) == [] && Shown(a + b) == Shown(a) + Shown(b)
    ensures Shown([l]) == if l.SampleLine? then [l.sample] else []
    decreases |b|
  {
    assert [l][..0] == [];
    if b == [] {
      assert a + b == a && Shown(a) + Shown(b) == Shown(a);
    } else {
      ShownIs(a, b[..|b| - 1], l);
      assert (a + b)[..|a + b| - 1] == a + b[..|b| - 1];
    }
  }

  /** Every sample is shown, in order, and nothing else. */
  lemma {:induction false} EmitShows(samples: seq<Sample>)
    ensures Shown(Emit(samples)) == samples
  {
    if samples != [] {
      var init, last := samples[..|samples| - 1], samples[|samples| - 1];
      EmitParts(samples);
      assert samples == init + [last];
      hide *;
      EmitShows(init);
      if last.metric != if init == [] then "" else init[|init| - 1].metric {
        ShownIs(Emit(init), [TypeLine(last.metric)], TypeLine(last.metric));
        ShownIs(Emit(init) + [TypeLine(last.metric)], [SampleLine(last)], SampleLine(last));
        assert init + [] == init;
      } else {
        ShownIs(Emit(init), [SampleLine(last)], SampleLine(last));
      }
    }
  }

  lemma EmitParts(samples: seq<Sample>)
    requires samples != []
    ensures var init, last := samples[..|samples| - 1], samples[|samples| - 1];
      Emit(samples) ==
        if last.metric != if init == [] then "" else init[|init| - 1].metric
        then Emit(init) + [TypeLine(last.metric)] + [SampleLine(last)]
        else Emit(init) + [SampleLine(last)]
  {
    var init := samples[..|samples| - 1];
    assert Emit(init) + [] == Emit(init);
  }

  /** The page: what is said of the scrape itself, then every sample. */
  lemma PageShows(samples: seq<Sample>, up: uint64, duration: uint64, failed: bool)
    ensures var page := Header(up, duration, failed) + Emit(samples);
      |page| >= 4 && page[..4] ==
        [TypeLine("f5tmm_up"), SampleLine(Sample("f5tmm_up", [], up, false)),
         TypeLine("f5tmm_scrape_duration_seconds"),
         SampleLine(Sample("f5tmm_scrape_duration_seconds", [], duration, false))] &&
      Shown(page[4..]) == samples
  {
    var comment := if failed then [Comment] else [];
    var page := Header(up, duration, failed) + Emit(samples);
    EmitShows(samples);
    ShownIs(comment, Emit(samples), Comment);
    hide Emit;
    assert page[4..] == comment + Emit(samples);
    hide Shown;
    assert [] + samples == samples;
    if failed {
      ShownIs([], [], Comment);
    } else {
      ShownIs([], [], TypeLine(""));
    }
  }

  method HandleMetrics(samples: seq<Sample>, up: uint64, duration: uint64, failed: bool) returns (page: seq<Line>)
    ensures page == Header(up, duration, failed) + Emit(samples)
    ensures |page| >= 4 && page[..4] ==
      [TypeLine("f5tmm_up"), SampleLine(Sample("f5tmm_up", [], up, false)),
       TypeLine("f5tmm_scrape_duration_seconds"),
       SampleLine(Sample("f5tmm_scrape_duration_seconds", [], duration, false))]
    ensures Shown(page[4..]) == samples
  {
    PageShows(samples, up, duration, failed);
    hide Shown;
    page := [TypeLine(UP), SampleLine(Sample(UP, [], up, false)),
             TypeLine(DURATION), SampleLine(Sample(DURATION, [], duration, false))];
    if failed {
      page := page + [Comment];
    }
    ghost var head := page;
    var prev := "";
    assert Emit(samples[..0]) == [];
    hide Emit;
    for i := 0 to |samples|
      invariant page == head + Emit(samples[..i])
      invariant prev == if i == 0 then "" else samples[i - 1].metric
    {
      EmitOne(head, samples, i);
      var s := samples[i];
      if s.metric != prev {
        page := page + [TypeLine(s.metric)];
        prev := s.metric;
      }
      page := page + [SampleLine(s)];
    }
    assert samples[..|samples|] == samples;
  }

  // ---------------------------------------------------------------------
  // Grouping
  // ---------------------------------------------------------------------

  ghost predicate OneTypeLineEach(page: seq<Line>) {
    forall i, j :: 0 <= i < j < |page| && page[i].TypeLine? && page[j].TypeLine? ==> page[i].family != page[j].family
  }

  /** One TYPE line per family, and every sample directly below a line of its own
      family: so all of a family's samples follow its TYPE line without a break. */
  ghost predicate WellGrouped(page: seq<Line>) {
    OneTypeLineEach(page) &&
    forall i :: 0 <= i < |page| && page[i].SampleLine? ==> i > 0 && FamilyOf(page[i - 1]) == FamilyOf(page[i])
  }

  /** In a well grouped page a family's lines are contiguous and start with its TYPE line. */
  lemma {:induction false} GroupStartsWithType(page: seq<Line>, k: nat) returns (t: nat)
    requires WellGrouped(page) && k < |page| && page[k].SampleLine?
    ensures t < k && page[t] == TypeLine(page[k].sample.metric)
    ensures forall i :: t <= i <= k ==> FamilyOf(page[i]) == Some(page[k].sample.metric)
  {
    if page[k - 1].TypeLine? {
      t := k - 1;
    } else {
      t := GroupStartsWithType(page, k - 1);
    }
  }

  ghost predicate Contiguous(samples: seq<Sample>) {
    forall i, j, k :: 0 <= i < j < k < |samples| && samples[i].metric == samples[k].metric ==>
      samples[j].metric == samples[i].metric
  }

  /** The families that have a TYPE line so far. */
  ghost predicate Typed(page: seq<Line>, family: string) {
    exists i :: 0 <= i < |page| && page[i] == TypeLine(family)
  }

  lemma EmitLast(samples: seq<Sample>)
    requires samples != []
    ensures var page := Emit(samples); page != [] && page[|page| - 1] == SampleLine(samples[|samples| - 1])
  {
  }

  lemma TypedOne(page: seq<Line>, l: Line, family: string)
    ensures Typed(page + [l], family) <==> Typed(page, family) || l == TypeLine(family)
  {
    var after := page + [l];
    assert after[|page|] == l && forall i :: 0 <= i < |page| ==> after[i] == page[i];
  }

  lemma {:induction false} EmitTypes(samples: seq<Sample>, family: string)
    requires forall i :: 0 <= i < |samples| ==> samples[i].metric != ""
    ensures Typed(Emit(samples), family) <==> exists i :: 0 <= i < |samples| && samples[i].metric == family
  {
    hide Typed;
    if samples == [] {
      NoneTyped(family);
    } else {
      var init, last := samples[..|samples| - 1], samples[|samples| - 1];
      EmitTypes(init, family);
      assert forall i :: 0 <= i < |init| ==> init[i] == samples[i];
      if init == [] || last.metric != init[|init| - 1].metric {
        TypedOne(Emit(init), TypeLine(last.metric), family);
        TypedOne(Emit(init) + [TypeLine(last.metric)], SampleLine(last), family);
      } else {
        assert Emit(init) + [] == Emit(init);
        TypedOne(Emit(init), SampleLine(last), family);
      }
    }
  }

  lemma NoneTyped(family: string)
    ensures !Typed([], family)
  {
  }

  /** A sample that continues the last family keeps the page grouped. */
  lemma SampleContinues(page: seq<Line>, s: Sample)
    requires WellGrouped(page) && page != [] && FamilyOf(page[|page| - 1]) == Some(s.metric)
    ensures WellGrouped(page + [SampleLine(s)])
  {
    var after := page + [SampleLine(s)];
    assert after[|page|] == SampleLine(s) && forall i :: 0 <= i < |page| ==> after[i] == page[i];
  }

  /** One that opens a family does exactly when that family has no TYPE line yet. */
  lemma SampleOpens(page: seq<Line>, s: Sample)
    requires WellGrouped(page)
    ensures WellGrouped(page + [TypeLine(s.metric)] + [SampleLine(s)]) <==> !Typed(page, s.metric)
  {
    var n, typed := |page|, page + [TypeLine(s.metric)];
    var after := typed + [SampleLine(s)];
    assert after[n] == TypeLine(s.metric) && forall i :: 0 <= i < n ==> after[i] == page[i] == typed[i];
    if Typed(page, s.metric) {
      var i :| 0 <= i < n && page[i] == TypeLine(s.metric);
      assert after[i].family == after[n].family;
    } else {
      assert typed[n] == TypeLine(s.metric);
      assert forall i :: 0 <= i < n && typed[i].TypeLine? ==> typed[i].family != s.metric;
      SampleContinues(typed, s);
    }
  }

  /** Adding one sample to a page keeps it grouped exactly when it continues the last
      family or opens one that has no TYPE line yet. */
  lemma OneMoreSample(page: seq<Line>, s: Sample, opens: bool)
    requires WellGrouped(page)
    requires opens || (page != [] && FamilyOf(page[|page| - 1]) == Some(s.metric))
    ensures WellGrouped(page + (if opens then [TypeLine(s.metric)] else []) + [SampleLine(s)]) <==>
      !opens || !Typed(page, s.metric)
  {
    hide WellGrouped;
    if opens {
      SampleOpens(page, s);
    } else {
      assert page + [] == page;
      SampleContinues(page, s);
    }
  }

  lemma PrefixGrouped(page: seq<Line>, n: nat)
    requires n <= |page| && WellGrouped(page)
    ensures WellGrouped(page[..n])
  {
  }

  /** Families of the page's own header. */
  predicate HeaderFamily(f: string) {
    f == UP || f == DURATION
  }

  lemma HeaderGrouped(up: uint64, duration: uint64, failed: bool)
    ensures var h := Header(up, duration, failed);
      WellGrouped(h) && forall f :: Typed(h, f) <==> HeaderFamily(f)
  {
    var h := Header(up, duration, failed);
    assert h[0] == TypeLine(UP) && h[2] == TypeLine(DURATION);
    assert UP != DURATION by {
      assert |UP| != |DURATION|;
    }
  }

  ghost predicate NoHeaderFamily(samples: seq<Sample>) {
    forall i :: 0 <= i < |samples| ==> !HeaderFamily(samples[i].metric)
  }

  lemma TypedConcat(a: seq<Line>, b: seq<Line>, family: string)
    ensures Typed(a + b, family) <==> Typed(a, family) || Typed(b, family)
  {
    if i :| 0 <= i < |a| && a[i] == TypeLine(family) {
      assert (a + b)[i] == TypeLine(family);
    }
    if i :| 0 <= i < |b| && b[i] == TypeLine(family) {
      assert (a + b)[|a| + i] == TypeLine(family);
    }
    if i :| 0 <= i < |a + b| && (a + b)[i] == TypeLine(family) {
      assert i < |a| ==> a[i] == TypeLine(family);
      assert i >= |a| ==> b[i - |a|] == TypeLine(family);
    }
  }

  /** A sample that may come next: of the last one's metric, or of a metric not seen. */
  ghost predicate Continues(init: seq<Sample>, last: Sample) {
    init == [] || last.metric == init[|init| - 1].metric ||
    forall i :: 0 <= i < |init| ==> init[i].metric != last.metric
  }

  lemma ContiguousExtends(init: seq<Sample>, last: Sample)
    ensures Contiguous(init + [last]) <==> Contiguous(init) && Continues(init, last)
  {
    var samples := init + [last];
    assert forall i :: 0 <= i < |init| ==> init[i] == samples[i];
    if Contiguous(samples) && init != [] && last.metric != init[|init| - 1].metric {
      assert samples[|init|] == last && samples[|init| - 1] == init[|init| - 1];
      forall i | 0 <= i < |init| ensures init[i].metric != last.metric {
        assert samples[i] == init[i];
      }
    }
  }

  /** One turn of the emitting loop, seen from the page. */
  lemma PageStep(page: seq<Line>, init: seq<Sample>, last: Sample)
    requires init != [] ==> page != [] && page[|page| - 1] == SampleLine(init[|init| - 1])
    requires Typed(page, last.metric) <==>
      HeaderFamily(last.metric) || exists i :: 0 <= i < |init| && init[i].metric == last.metric
    requires WellGrouped(page) <==> Contiguous(init) && NoHeaderFamily(init)
    ensures WellGrouped(page + Opening(init, last) + [SampleLine(last)]) <==>
      Contiguous(init + [last]) && NoHeaderFamily(init + [last])
  {
    var opens := init == [] || last.metric != init[|init| - 1].metric;
    var after := page + Opening(init, last) + [SampleLine(last)];
    ContiguousExtends(init, last);
    assert NoHeaderFamily(init + [last]) <==> NoHeaderFamily(init) && !HeaderFamily(last.metric) by {
      assert forall i :: 0 <= i < |init| ==> (init + [last])[i] == init[i];
      assert (init + [last])[|init|] == last;
    }
    hide Contiguous;
    if WellGrouped(page) {
      OneMoreSample(page, last, opens);
    } else {
      assert after[..|page|] == page;
      if WellGrouped(after) {
        PrefixGrouped(after, |page|);
      }
    }
  }

  /** The page is well grouped exactly when the samples of each metric stand together
      and none borrows the header's names. */
  lemma {:induction false} PageGroupedExactlyWhen(samples: seq<Sample>, up: uint64, duration: uint64, failed: bool)
    requires forall i :: 0 <= i < |samples| ==> samples[i].metric != ""
    ensures WellGrouped(Header(up, duration, failed) + Emit(samples)) <==>
      Contiguous(samples) && NoHeaderFamily(samples)
  {
    var h := Header(up, duration, failed);
    HeaderGrouped(up, duration, failed);
    hide Header;
    hide WellGrouped;
    hide Typed;
    hide HeaderFamily;
    if samples == [] {
      assert h + Emit(samples) == h;
    } else {
      var init, last := samples[..|samples| - 1], samples[|samples| - 1];
      assert samples == init + [last];
      PageGroupedExactlyWhen(init, up, duration, failed);
      hide Contiguous;
      hide NoHeaderFamily;
      EmitTypes(init, last.metric);
      if init != [] {
        EmitLast(init);
      }
      TypedConcat(h, Emit(init), last.metric);
      PageStep(h + Emit(init), init, last);
      EmitStep(h, init, last);
    }
  }

  function Opening(init: seq<Sample>, last: Sample): seq<Line> {
    if init == [] || last.metric != init[|init| - 1].metric then [TypeLine(last.metric)] else []
  }

  lemma EmitSnoc(init: seq<Sample>, last: Sample)
    requires last.metric != ""
    ensures Emit(init + [last]) == Emit(init) + Opening(init, last) + [SampleLine(last)]
  {
    assert (init + [last])[..|init|] == init && (init + [last])[|init|] == last;
  }

  lemma EmitStep(h: seq<Line>, init: seq<Sample>, last: Sample)
    requires last.metric != ""
    ensures h + Emit(init + [last]) == h + Emit(init) + Opening(init, last) + [SampleLine(last)]
  {
    EmitSnoc(init, last);
    hide Emit;
    hide Opening;
    assert h + (Emit(init) + Opening(init, last) + [SampleLine(last)])
        == h + Emit(init) + Opening(init, last) + [SampleLine(last)];
  }

  // ---------------------------------------------------------------------
  // One segment
  // ---------------------------------------------------------------------

  function LabelKey(ls: seq<Label>): string {
    if ls == [] then ""
    else LabelKey(ls[..|ls| - 1]) + ls[|ls| - 1].name + "=" + ls[|ls| - 1].value + ","
  }

  /** `collectTokens`' order: by metric, then by label text. */
  predicate TokenLe(a: Sample, b: Sample) {
    if a.metric != b.metric then LexLe(Codes(a.metric), Codes(b.metric))
    else LexLe(Codes(LabelKey(a.labels)), Codes(LabelKey(b.labels)))
  }

  /** By metric first; among one metric's, by the labels written one after another. */
  lemma TokenLeIs(a: Sample, b: Sample, ls: seq<Label>, l: Label)
    ensures a.metric != b.metric ==> (TokenLe(a, b) <==> LexLe(Codes(a.metric), Codes(b.metric)))
    ensures a.metric == b.metric ==> (TokenLe(a, b) <==> LexLe(Codes(LabelKey(a.labels)), Codes(LabelKey(b.labels))))
    ensures LabelKey([]) == "" && LabelKey(ls + [l]) == LabelKey(ls) + l.name + "=" + l.value + ","
  {
    assert (ls + [l])[..|ls|] == ls;
  }

  lemma MetricsOrdered(a: Sample, b: Sample)
    requires TokenLe(a, b)
    ensures LexLe(Codes(a.metric), Codes(b.metric))
  {
    LexTotal(Codes(a.metric), Codes(a.metric));
  }

  /** Sorted tokens stand together by metric, whichever sorting algorithm ran. */
  lemma SortedTokensContiguous(tokens: seq<Sample>)
    requires SortedBy(tokens, TokenLe)
    ensures Contiguous(tokens)
  {
    forall i, j, k | 0 <= i < j < k < |tokens| && tokens[i].metric == tokens[k].metric
      ensures tokens[j].metric == tokens[i].metric
    {
      MetricsOrdered(tokens[i], tokens[j]);
      MetricsOrdered(tokens[j], tokens[k]);
      LexAntisymmetric(Codes(tokens[i].metric), Codes(tokens[j].metric));
      CodesInjective(tokens[i].metric, tokens[j].metric);
    }
  }

  /** Metric `m` occurs among the samples. */
  ghost predicate Occurs(samples: seq<Sample>, m: string) {
    exists i :: 0 <= i < |samples| && samples[i].metric == m
  }

  /** Two contiguous runs without a metric in common are contiguous together. */
  lemma ContiguousConcat(a: seq<Sample>, b: seq<Sample>)
    requires Contiguous(a) && Contiguous(b)
    requires forall m :: !(Occurs(a, m) && Occurs(b, m))
    ensures Contiguous(a + b)
  {
    var c := a + b;
    forall i, j, k | 0 <= i < j < k < |c| && c[i].metric == c[k].metric ensures c[j].metric == c[i].metric {
      var m := c[i].metric;
      if i < |a| {
        assert a[i].metric == m;
        assert Occurs(a, m);
      } else {
        assert b[i - |a|].metric == m;
        assert Occurs(b, m);
      }
      if k < |a| {
        assert a[k].metric == m && a[j] == c[j];
      } else {
        assert b[k - |a|].metric == m;
        assert Occurs(b, m);
        assert b[j - |a|] == c[j] && b[i - |a|] == c[i];
      }
    }
  }

  lemma OccursConcat(a: seq<Sample>, b: seq<Sample>, m: string)
    ensures Occurs(a + b, m) <==> Occurs(a, m) || Occurs(b, m)
  {
    if i :| 0 <= i < |a| && a[i].metric == m {
      assert (a + b)[i].metric == m;
    }
    if i :| 0 <= i < |b| && b[i].metric == m {
      assert (a + b)[|a| + i].metric == m;
    }
    if i :| 0 <= i < |a + b| && (a + b)[i].metric == m {
      assert i < |a| ==> a[i].metric == m;
      assert i >= |a| ==> b[i - |a|].metric == m;
    }
  }

  /** The metric names a list of value columns gives. */
  function MetricsOf(table: string, cs: seq<Column>): (ms: seq<string>)
    ensures |ms| == |cs|
  {
    seq(|cs|, i requires 0 <= i < |cs| => Metric(table, cs[i]))
  }

  /** Every metric name of the configured tables, in the order collected. */
  function AllMetrics(names: seq<string>, segment: map<string, Table>): seq<string> {
    if names == [] then []
    else
      var init, last := AllMetrics(names[..|names| - 1], segment), names[|names| - 1];
      if last in segment && segment[last].readable then init + MetricsOf(last, ValCols(segment[last].columns)) else init
  }

  ghost predicate Distinct(ms: seq<string>) {
    forall i, j :: 0 <= i < j < |ms| ==> ms[i] != ms[j]
  }

  lemma BlockMetrics(metric: string, c: Column, rows: seq<Row>, keyCols: seq<Column>, decode: Decoder)
    ensures forall m :: Occurs(Block(metric, c, rows, keyCols, decode), m) ==> m == metric
    ensures Contiguous(Block(metric, c, rows, keyCols, decode))
  {
  }

  lemma BlocksSnoc(table: string, cs: seq<Column>, rows: seq<Row>, keyCols: seq<Column>, decode: Decoder)
    requires cs != []
    ensures var init, last := cs[..|cs| - 1], cs[|cs| - 1];
      Blocks(table, cs, rows, keyCols, decode) ==
        Blocks(table, init, rows, keyCols, decode) + Block(Metric(table, last), last, rows, keyCols, decode) &&
      MetricsOf(table, cs) == MetricsOf(table, init) + [Metric(table, last)]
  {
    hide Block;
    hide Metric;
  }

  lemma {:induction false} BlocksContiguous(table: string, cs: seq<Column>, rows: seq<Row>, keyCols: seq<Column>,
                                            decode: Decoder)
    requires Distinct(MetricsOf(table, cs))
    ensures Contiguous(Blocks(table, cs, rows, keyCols, decode))
    ensures forall m :: Occurs(Blocks(table, cs, rows, keyCols, decode), m) ==> m in MetricsOf(table, cs)
  {
    if cs != [] {
      hide *;
      var init, last := cs[..|cs| - 1], cs[|cs| - 1];
      var metric := Metric(table, last);
      BlocksSnoc(table, cs, rows, keyCols, decode);
      DistinctPrefix(MetricsOf(table, init), [metric]);
      BlocksContiguous(table, init, rows, keyCols, decode);
      BlockMetrics(metric, last, rows, keyCols, decode);
      var a, b := Blocks(table, init, rows, keyCols, decode), Block(metric, last, rows, keyCols, decode);
      ContiguousConcat(a, b);
      forall m | Occurs(a + b, m) ensures m in MetricsOf(table, cs) {
        OccursConcat(a, b, m);
      }
    }
  }

  lemma DistinctPrefix(a: seq<string>, b: seq<string>)
    requires Distinct(a + b)
    ensures Distinct(a) && Distinct(b) && forall m :: !(m in a && m in b)
  {
    assert forall i :: 0 <= i < |a| ==> (a + b)[i] == a[i];
    assert forall i :: 0 <= i < |b| ==> (a + b)[|a| + i] == b[i];
  }

  lemma {:induction false} SegmentContiguous(names: seq<string>, segment: map<string, Table>, decode: Decoder)
    requires Distinct(AllMetrics(names, segment))
    ensures Contiguous(SegmentSamples(names, segment, decode))
    ensures forall m :: Occurs(SegmentSamples(names, segment, decode), m) ==> m in AllMetrics(names, segment)
  {
    if names != [] {
      var init, last := names[..|names| - 1], names[|names| - 1];
      if last in segment && segment[last].readable {
        var t := segment[last];
        var more := MetricsOf(last, ValCols(t.columns));
        DistinctPrefix(AllMetrics(init, segment), more);
        SegmentContiguous(init, segment, decode);
        var keyCols := KeyCols(t.columns);
        BlocksContiguous(last, ValCols(t.columns), Kept(t.rows, keyCols, decode), keyCols, decode);
        var a, b := SegmentSamples(init, segment, decode), TableSamples(last, t, decode);
        hide Blocks;
        hide MetricsOf;
        ContiguousConcat(a, b);
        forall m | Occurs(a + b, m) ensures m in AllMetrics(names, segment) {
          OccursConcat(a, b, m);
        }
      } else {
        SegmentContiguous(init, segment, decode);
        var a := SegmentSamples(init, segment, decode);
        assert a + [] == a;
      }
    }
  }

  /** Metric names that tables, tokens and the exporter itself use do not overlap. */
  ghost predicate NamesApart(names: seq<string>, segment: map<string, Table>, tokens: seq<Sample>) {
    Distinct(AllMetrics(names, segment)) &&
    (forall m :: m in AllMetrics(names, segment) ==> !Occurs(tokens, m) && m != SEGMENT_UP && !HeaderFamily(m)) &&
    !Occurs(tokens, SEGMENT_UP) && !Occurs(tokens, UP) && !Occurs(tokens, DURATION)
  }

  lemma SegmentUpApart()
    ensures !HeaderFamily(SEGMENT_UP) && SEGMENT_UP != ""
  {
    assert |SEGMENT_UP| != |UP| && |SEGMENT_UP| != |DURATION|;
  }

  /** `collect` with one segment: its samples, the sorted tokens, then the health row. */
  lemma {:induction false} OneSegmentGrouped(names: seq<string>, segment: map<string, Table>, tokens: seq<Sample>,
                                             health: Sample, decode: Decoder,
                                             up: uint64, duration: uint64, failed: bool)
    requires SortedBy(tokens, TokenLe) && health.metric == SEGMENT_UP
    requires NamesApart(names, segment, tokens)
    requires forall i :: 0 <= i < |tokens| ==> tokens[i].metric != ""
    ensures var samples := SegmentSamples(names, segment, decode) + tokens + [health];
      WellGrouped(Header(up, duration, failed) + Emit(samples))
  {
    hide Header;
    hide HeaderFamily;
    hide TokenLe;
    var a := SegmentSamples(names, segment, decode);
    var samples := a + tokens + [health];
    SegmentContiguous(names, segment, decode);
    SortedTokensContiguous(tokens);
    SegmentUpApart();
    ContiguousConcat(a, tokens);
    assert forall m :: Occurs([health], m) ==> m == SEGMENT_UP;
    forall m ensures !(Occurs(a + tokens, m) && Occurs([health], m)) {
      OccursConcat(a, tokens, m);
    }
    ContiguousConcat(a + tokens, [health]);
    SegmentMetricsNonempty(names, segment, decode);
    hide SegmentSamples;
    forall i | 0 <= i < |samples| ensures samples[i].metric != "" && !HeaderFamily(samples[i].metric) {
      EachApart(a, tokens, health, names, segment, i);
    }
    PageGroupedExactlyWhen(samples, up, duration, failed);
  }

  lemma EachApart(a: seq<Sample>, tokens: seq<Sample>, health: Sample, names: seq<string>,
                  segment: map<string, Table>, i: nat)
    requires NamesApart(names, segment, tokens) && health.metric == SEGMENT_UP
    requires forall m :: Occurs(a, m) ==> m in AllMetrics(names, segment)
    requires forall k :: 0 <= k < |a| ==> a[k].metric != ""
    requires forall k :: 0 <= k < |tokens| ==> tokens[k].metric != ""
    requires i < |a + tokens + [health]|
    ensures (a + tokens + [health])[i].metric != "" && !HeaderFamily((a + tokens + [health])[i].metric)
  {
    SegmentUpApart();
    if i < |a| {
      assert Occurs(a, a[i].metric);
    } else if i < |a| + |tokens| {
      assert Occurs(tokens, tokens[i - |a|].metric);
    }
  }

  lemma {:induction false} SegmentMetricsNonempty(names: seq<string>, segment: map<string, Table>, decode: Decoder)
    ensures forall i :: 0 <= i < |SegmentSamples(names, segment, decode)| ==>
      SegmentSamples(names, segment, decode)[i].metric != ""
  {
    if names != [] {
      var last := names[|names| - 1];
      SegmentMetricsNonempty(names[..|names| - 1], segment, decode);
      if last in segment && segment[last].readable {
        var t := segment[last];
        BlocksNonempty(last, ValCols(t.columns), Kept(t.rows, KeyCols(t.columns), decode), KeyCols(t.columns), decode);
      }
    }
  }

  lemma {:induction false} BlocksNonempty(table: string, cs: seq<Column>, rows: seq<Row>, keyCols: seq<Column>,
                                          decode: Decoder)
    ensures forall i :: 0 <= i < |Blocks(table, cs, rows, keyCols, decode)| ==>
      Blocks(table, cs, rows, keyCols, decode)[i].metric != ""
  {
    if cs != [] {
      BlocksNonempty(table, cs[..|cs| - 1], rows, keyCols, decode);
      assert |Metric(table, cs[|cs| - 1])| >= 6;
    }
  }

  /** What reading one segment gave: its samples, or an error. */
  datatype Reading = Reading(name: string, samples: Option<seq<Sample>>)

  function HealthOf(r: Reading, one: uint64): Sample {
    Sample(SEGMENT_UP, [Label("segment", r.name)], if r.samples.Some? then one else 0, false)
  }

  function SamplesOf(rs: seq<Reading>): seq<Sample> {
    if rs == [] then []
    else
      var init, last := SamplesOf(rs[..|rs| - 1]), rs[|rs| - 1];
      if last.samples.Some? then init + last.samples.value else init
  }

  /** What is gathered: the samples of every readable segment, segment after segment. */
  lemma {:induction false} SamplesOfIs(a: seq<Reading>, b: seq<Reading>, r: Reading)
    ensures SamplesOf([]) == [] && SamplesOf(a + b) == SamplesOf(a) + SamplesOf(b)
    ensures SamplesOf([r]) == if r.samples.Some? then r.samples.value else []
    decreases |b|
  {
    assert [r][..0] == [];
    assert r.samples.Some? ==> [] + r.samples.value == r.samples.value;
    if b == [] {
      assert a + b == a && SamplesOf(a) + SamplesOf(b) == SamplesOf(a);
    } else {
      SamplesOfIs(a, b[..|b| - 1], r);
      assert (a + b)[..|a + b| - 1] == a + b[..|b| - 1];
    }
  }

  lemma HealthLast(samples: seq<Sample>, health: seq<Sample>)
    requires forall k :: 0 <= k < |health| ==> health[k].metric == SEGMENT_UP
    ensures Contiguous(samples) && !Occurs(samples, SEGMENT_UP) ==> Contiguous(samples + health)
  {
    if Contiguous(samples) && !Occurs(samples, SEGMENT_UP) {
      ContiguousConcat(samples, health);
    }
  }

  lemma Appended(samples: seq<Sample>, health: seq<Sample>, rs: seq<Reading>, one: uint64)
    requires |health| == |rs| && forall k :: 0 <= k < |health| ==> health[k] == HealthOf(rs[k], one)
    ensures forall i :: |samples| <= i < |samples| + |rs| ==>
      var r := rs[i - |samples|];
      (samples + health)[i] ==
        Sample("f5tmm_segment_up", [Label("segment", r.name)], if r.samples.Some? then one else 0, false)
    ensures (samples + health)[..|samples|] == samples
  {
  }

  /** `collect`: every segment's samples, then one health row per segment in one
      block; only the first segment's failure is reported. `one` is the bits of 1.0. */
  method Collect(rs: seq<Reading>, one: uint64) returns (out: seq<Sample>, failed: bool)
    ensures |out| == |SamplesOf(rs)| + |rs| && out[..|SamplesOf(rs)|] == SamplesOf(rs)
    ensures forall i :: 0 <= i < |rs| ==> out[|SamplesOf(rs)| + i] == HealthOf(rs[i], one)
    ensures forall i :: |SamplesOf(rs)| <= i < |out| ==>
      var r := rs[i - |SamplesOf(rs)|];
      out[i] == Sample("f5tmm_segment_up", [Label("segment", r.name)], if r.samples.Some? then one else 0, false)
    ensures failed <==> rs != [] && rs[0].samples.None?
    ensures Contiguous(SamplesOf(rs)) && !Occurs(SamplesOf(rs), SEGMENT_UP) ==> Contiguous(out)
  {
    out, failed := [], false;
    var health: seq<Sample> := [];
    for i := 0 to |rs|
      invariant out == SamplesOf(rs[..i]) && |health| == i
      invariant forall k :: 0 <= k < i ==> health[k] == HealthOf(rs[k], one)
      invariant failed <==> i > 0 && rs[0].samples.None?
    {
      hide Contiguous;
      hide Occurs;
      assert rs[..i + 1][..i] == rs[..i];
      var up := one;
      if rs[i].samples.None? {
        up := 0;
        if i == 0 {
          failed := true;
        }
      }
      health := health + [Sample(SEGMENT_UP, [Label("segment", rs[i].name)], up, false)];
      if rs[i].samples.Some? {
        out := out + rs[i].samples.value;
      }
    }
    assert rs[..|rs|] == rs;
    HealthLast(out, health);
    hide Contiguous;
    hide Occurs;
    hide SamplesOf;
    Appended(out, health, rs, one);
    hide HealthOf;
    out := out + health;
  }

  // ---------------------------------------------------------------------
  // Several segments
  // ---------------------------------------------------------------------

  /** Runs of samples laid end to end. */
  function Flat(parts: seq<seq<Sample>>): seq<Sample> {
    if parts == [] then [] else Flat(parts[..|parts| - 1]) + parts[|parts| - 1]
  }

  ghost predicate OnlyOf(p: seq<Sample>, m: string) {
    forall i :: 0 <= i < |p| ==> p[i].metric == m
  }

  predicate EndsWith(p: seq<Sample>, m: string) {
    p != [] && p[|p| - 1].metric == m
  }

  predicate StartsWith(p: seq<Sample>, m: string) {
    p != [] && p[0].metric == m
  }

  /** Metric `m` runs from the end of part `i` to the start of part `j` without a break. */
  ghost predicate Bridge(parts: seq<seq<Sample>>, i: nat, j: nat, m: string)
    requires i < j < |parts|
  {
    EndsWith(parts[i], m) && StartsWith(parts[j], m) && forall k :: i < k < j ==> OnlyOf(parts[k], m)
  }

  /** A metric that occurs in two parts runs through from one to the other. */
  ghost predicate Apart(parts: seq<seq<Sample>>) {
    forall i, j, m :: 0 <= i < j < |parts| && Occurs(parts[i], m) && Occurs(parts[j], m) ==> Bridge(parts, i, j, m)
  }

  /** Every metric the two runs share ends the first and starts the second. */
  ghost predicate Joins(a: seq<Sample>, b: seq<Sample>) {
    forall m :: Occurs(a, m) && Occurs(b, m) ==> EndsWith(a, m) && StartsWith(b, m)
  }

  lemma ContiguousParts(a: seq<Sample>, b: seq<Sample>)
    requires Contiguous(a + b)
    ensures Contiguous(a) && Contiguous(b) && Joins(a, b)
  {
    var c := a + b;
    assert forall i :: 0 <= i < |a| ==> c[i] == a[i];
    assert forall i :: 0 <= i < |b| ==> c[|a| + i] == b[i];
    forall m | Occurs(a, m) && Occurs(b, m) ensures EndsWith(a, m) && StartsWith(b, m) {
      SharedJoins(a, b, m);
    }
  }

  lemma SharedJoins(a: seq<Sample>, b: seq<Sample>, m: string)
    requires Contiguous(a + b) && Occurs(a, m) && Occurs(b, m)
    ensures EndsWith(a, m) && StartsWith(b, m)
  {
    var c := a + b;
    var i :| 0 <= i < |a| && a[i].metric == m;
    var j :| 0 <= j < |b| && b[j].metric == m;
    assert c[i].metric == m && c[|a| + j].metric == m;
    assert c[|a| - 1] == a[|a| - 1] && c[|a|] == b[0];
  }

  lemma PartsContiguous(a: seq<Sample>, b: seq<Sample>)
    requires Contiguous(a) && Contiguous(b) && Joins(a, b)
    ensures Contiguous(a + b)
  {
    var c := a + b;
    forall i, j, k | 0 <= i < j < k < |c| && c[i].metric == c[k].metric ensures c[j].metric == c[i].metric {
      var m := c[i].metric;
      if i >= |a| {
        assert b[i - |a|] == c[i] && b[j - |a|] == c[j] && b[k - |a|] == c[k];
      } else if k < |a| {
        assert a[i] == c[i] && a[j] == c[j] && a[k] == c[k];
      } else {
        assert a[i].metric == m && b[k - |a|].metric == m;
        assert Occurs(a, m) && Occurs(b, m);
        assert a[|a| - 1].metric == m && b[0].metric == m;
        if j < |a| {
          assert a[j] == c[j];
        } else {
          assert b[j - |a|] == c[j];
        }
      }
    }
  }

  lemma ConcatContiguousExactlyWhen(a: seq<Sample>, b: seq<Sample>)
    ensures Contiguous(a + b) <==> Contiguous(a) && Contiguous(b) && Joins(a, b)
  {
    hide Contiguous;
    hide Joins;
    if Contiguous(a + b) {
      ContiguousParts(a, b);
    }
    if Contiguous(a) && Contiguous(b) && Joins(a, b) {
      PartsContiguous(a, b);
    }
  }

  lemma FlatInit(parts: seq<seq<Sample>>, i: nat)
    requires i < |parts| - 1
    ensures var init, n := parts[..|parts| - 1], |parts| - 1;
      init[..i] == parts[..i] && init[i] == parts[i] && Flat(parts) == Flat(init) + parts[n] &&
      Flat(parts[i + 1..]) == Flat(init[i + 1..]) + parts[n]
  {
    assert parts[i + 1..][..|parts| - 2 - i] == parts[..|parts| - 1][i + 1..];
  }

  lemma Regroup(a: seq<Sample>, b: seq<Sample>, c: seq<Sample>, d: seq<Sample>)
    ensures a + (b + c) + d == a + (b + (c + d))
  {
  }

  lemma {:induction false} FlatSplit(parts: seq<seq<Sample>>, i: nat)
    requires i < |parts|
    ensures Flat(parts) == Flat(parts[..i]) + (parts[i] + Flat(parts[i + 1..]))
  {
    var n := |parts| - 1;
    if i == n {
      assert parts[i + 1..] == [];
    } else {
      hide Flat;
      FlatSplit(parts[..n], i);
      FlatInit(parts, i);
      Regroup(Flat(parts[..i]), parts[i], Flat(parts[..n][i + 1..]), parts[n]);
    }
  }

  lemma {:induction false} FlatOnlyOf(parts: seq<seq<Sample>>, m: string)
    ensures OnlyOf(Flat(parts), m) <==> forall k :: 0 <= k < |parts| ==> OnlyOf(parts[k], m)
  {
    if parts != [] {
      var init, last := parts[..|parts| - 1], parts[|parts| - 1];
      FlatOnlyOf(init, m);
      OnlyOfConcat(Flat(init), last, m);
      assert forall k :: 0 <= k < |init| ==> init[k] == parts[k];
    }
  }

  lemma OnlyOfConcat(a: seq<Sample>, b: seq<Sample>, m: string)
    ensures OnlyOf(a + b, m) <==> OnlyOf(a, m) && OnlyOf(b, m)
  {
    assert forall i :: 0 <= i < |a| ==> (a + b)[i] == a[i];
    assert forall i :: 0 <= i < |b| ==> (a + b)[|a| + i] == b[i];
  }

  lemma SomeOrLast(parts: seq<seq<Sample>>, m: string)
    requires parts != []
    ensures var init, last := parts[..|parts| - 1], parts[|parts| - 1];
      (exists k :: 0 <= k < |parts| && Occurs(parts[k], m)) <==>
      (exists k :: 0 <= k < |init| && Occurs(init[k], m)) || Occurs(last, m)
  {
    hide Occurs;
    var n, init := |parts| - 1, parts[..|parts| - 1];
    if k :| 0 <= k < |parts| && Occurs(parts[k], m) {
      assert k < n ==> Occurs(init[k], m);
    }
    if k :| 0 <= k < |init| && Occurs(init[k], m) {
      assert Occurs(parts[k], m);
    }
    assert Occurs(parts[n], m) ==> exists k :: 0 <= k < |parts| && Occurs(parts[k], m);
  }

  lemma {:induction false} FlatOccurs(parts: seq<seq<Sample>>, m: string)
    ensures Occurs(Flat(parts), m) <==> exists k :: 0 <= k < |parts| && Occurs(parts[k], m)
  {
    if parts != [] {
      var init, last := parts[..|parts| - 1], parts[|parts| - 1];
      FlatOccurs(init, m);
      OccursConcat(Flat(init), last, m);
      assert Flat(parts) == Flat(init) + last;
      hide *;
      SomeOrLast(parts, m);
    }
  }

  /** Around a run `y` that holds `m`: the whole ends with `m` exactly when `y` does and
      nothing else follows. */
  lemma EndsAround(x: seq<Sample>, y: seq<Sample>, z: seq<Sample>, m: string)
    requires Contiguous(x + (y + z)) && Occurs(y, m)
    ensures EndsWith(x + (y + z), m) <==> EndsWith(y, m) && OnlyOf(z, m)
  {
    var c := x + (y + z);
    var i :| 0 <= i < |y| && y[i].metric == m;
    assert c[|x| + i] == y[i];
    assert forall k :: 0 <= k < |z| ==> c[|x| + |y| + k] == z[k];
    assert c[|x| + |y| - 1] == y[|y| - 1];
    assert z != [] ==> c[|c| - 1] == z[|z| - 1];
    if EndsWith(c, m) {
      forall k | 0 <= k < |z| ensures z[k].metric == m {
        assert c[|x| + |y| + k].metric == m;
      }
      assert c[|x| + |y| - 1].metric == m;
    }
  }

  lemma FlatEnds(parts: seq<seq<Sample>>, i: nat, m: string)
    requires i < |parts| && Contiguous(Flat(parts)) && Occurs(parts[i], m)
    ensures EndsWith(Flat(parts), m) <==>
      EndsWith(parts[i], m) && forall k :: i < k < |parts| ==> OnlyOf(parts[k], m)
  {
    var after := parts[i + 1..];
    FlatSplit(parts, i);
    EndsAround(Flat(parts[..i]), parts[i], Flat(after), m);
    FlatOnlyOf(after, m);
    hide OnlyOf;
    assert forall k :: 0 <= k < |after| ==> after[k] == parts[i + 1 + k];
    assert forall k :: i < k < |parts| ==> parts[k] == after[k - i - 1];
  }

  /** A new last part: every metric it shares with an earlier one runs through to it. */
  ghost predicate LastApart(parts: seq<seq<Sample>>)
    requires parts != []
  {
    forall i, m :: 0 <= i < |parts| - 1 && Occurs(parts[i], m) && Occurs(parts[|parts| - 1], m) ==>
      Bridge(parts, i, |parts| - 1, m)
  }

  lemma ApartByLast(parts: seq<seq<Sample>>)
    requires parts != []
    ensures Apart(parts) <==> Apart(parts[..|parts| - 1]) && LastApart(parts)
  {
    hide Occurs;
    hide OnlyOf;
    hide EndsWith;
    hide StartsWith;
    var n, init := |parts| - 1, parts[..|parts| - 1];
    assert forall i :: 0 <= i < n ==> init[i] == parts[i];
    assert forall i, j, m :: 0 <= i < j < n ==> (Bridge(init, i, j, m) <==> Bridge(parts, i, j, m));
    if Apart(parts) {
      forall i, j, m | 0 <= i < j < n && Occurs(init[i], m) && Occurs(init[j], m) ensures Bridge(init, i, j, m) {
        assert Occurs(parts[i], m) && Occurs(parts[j], m);
      }
    }
  }

  /** Contiguous runs laid end to end are contiguous exactly when each metric they share
      runs through from one to the other. */
  lemma {:induction false} FlatContiguousExactlyWhen(parts: seq<seq<Sample>>)
    requires forall i :: 0 <= i < |parts| ==> Contiguous(parts[i])
    ensures Contiguous(Flat(parts)) <==> Apart(parts)
  {
    if parts != [] {
      var n, init, last := |parts| - 1, parts[..|parts| - 1], parts[|parts| - 1];
      assert forall i :: 0 <= i < n ==> init[i] == parts[i];
      FlatContiguousExactlyWhen(init);
      ConcatContiguousExactlyWhen(Flat(init), last);
      ApartByLast(parts);
      if Contiguous(Flat(init)) {
        LastJoins(parts);
      }
    }
  }

  lemma LastJoins(parts: seq<seq<Sample>>)
    requires parts != [] && Contiguous(Flat(parts[..|parts| - 1]))
    ensures var init, last := parts[..|parts| - 1], parts[|parts| - 1];
      LastApart(parts) <==> Joins(Flat(init), last)
  {
    var n, init, last := |parts| - 1, parts[..|parts| - 1], parts[|parts| - 1];
    assert forall i :: 0 <= i < n ==> init[i] == parts[i];
    forall i, m | 0 <= i < n && Occurs(parts[i], m)
      ensures Occurs(Flat(init), m)
      ensures Bridge(parts, i, n, m) <==> EndsWith(Flat(init), m) && StartsWith(last, m)
    {
      FlatOccurs(init, m);
      assert Occurs(init[i], m);
      FlatEnds(init, i, m);
    }
    forall m | Occurs(Flat(init), m) ensures exists i :: 0 <= i < n && Occurs(parts[i], m) {
      FlatOccurs(init, m);
      var i :| 0 <= i < |init| && Occurs(init[i], m);
      assert Occurs(parts[i], m);
    }
  }

  /** What one readable segment gives: its tables, and the tokens read along with them. */
  datatype SegmentRead = SegmentRead(tables: map<string, Table>, tokens: seq<Sample>)

  /** The samples of every readable segment, tables then tokens, as separate runs. */
  function SegmentParts(names: seq<string>, scan: seq<Option<SegmentRead>>, decode: Decoder): seq<seq<Sample>> {
    if scan == [] then []
    else
      var init, last := SegmentParts(names, scan[..|scan| - 1], decode), scan[|scan| - 1];
      if last.None? then init
      else init + [SegmentSamples(names, last.value.tables, decode), last.value.tokens]
  }

  /** As `collect` is given them. */
  function AsReadings(names: seq<string>, scan: seq<Option<SegmentRead>>, paths: seq<string>,
                      decode: Decoder): (rs: seq<Reading>)
    requires |paths| == |scan|
    ensures |rs| == |scan|
    ensures forall i :: 0 <= i < |scan| ==>
      rs[i].name == paths[i] &&
      rs[i].samples == if scan[i].None? then None
                       else Some(SegmentSamples(names, scan[i].value.tables, decode) + scan[i].value.tokens)
  {
    if scan == [] then []
    else
      var n := |scan| - 1;
      var samples := if scan[n].None? then None
                     else Some(SegmentSamples(names, scan[n].value.tables, decode) + scan[n].value.tokens);
      AsReadings(names, scan[..n], paths[..n], decode) + [Reading(paths[n], samples)]
  }

  lemma {:induction false} PartsAreSamples(names: seq<string>, scan: seq<Option<SegmentRead>>, paths: seq<string>,
                                           decode: Decoder)
    requires |paths| == |scan|
    ensures SamplesOf(AsReadings(names, scan, paths, decode)) == Flat(SegmentParts(names, scan, decode))
  {
    hide SegmentSamples;
    if scan != [] {
      var n := |scan| - 1;
      PartsAreSamples(names, scan[..n], paths[..n], decode);
      var rs := AsReadings(names, scan, paths, decode);
      assert rs[..n] == AsReadings(names, scan[..n], paths[..n], decode);
      if scan[n].Some? {
        FlatTwo(SegmentParts(names, scan[..n], decode), SegmentSamples(names, scan[n].value.tables, decode),
                scan[n].value.tokens);
      }
    }
  }

  lemma FlatTwo(parts: seq<seq<Sample>>, a: seq<Sample>, b: seq<Sample>)
    ensures Flat(parts + [a, b]) == Flat(parts) + (a + b)
  {
    var all := parts + [a, b];
    assert all[..|all| - 1] == parts + [a] && (parts + [a])[..|parts|] == parts;
  }

  /** Each segment by itself is in order: distinct metric names, sorted tokens. */
  ghost predicate Tidy(names: seq<string>, scan: seq<Option<SegmentRead>>) {
    forall i :: 0 <= i < |scan| && scan[i].Some? ==>
      Distinct(AllMetrics(names, scan[i].value.tables)) && SortedBy(scan[i].value.tokens, TokenLe) &&
      forall k :: 0 <= k < |scan[i].value.tokens| ==> scan[i].value.tokens[k].metric != ""
  }

  ghost predicate Named(p: seq<Sample>) {
    forall k :: 0 <= k < |p| ==> p[k].metric != ""
  }

  ghost predicate EachTidy(parts: seq<seq<Sample>>) {
    forall i :: 0 <= i < |parts| ==> Contiguous(parts[i]) && Named(parts[i])
  }

  lemma OneMoreTidy(parts: seq<seq<Sample>>, p: seq<Sample>)
    requires EachTidy(parts) && Contiguous(p) && Named(p)
    ensures EachTidy(parts + [p])
  {
    hide Contiguous;
    hide Named;
  }

  lemma {:induction false} PartsTidy(names: seq<string>, scan: seq<Option<SegmentRead>>, decode: Decoder)
    requires Tidy(names, scan)
    ensures EachTidy(SegmentParts(names, scan, decode))
  {
    hide Contiguous;
    hide SegmentSamples;
    hide TokenLe;
    hide AllMetrics;
    if scan != [] {
      var n := |scan| - 1;
      assert forall i :: 0 <= i < n ==> scan[..n][i] == scan[i];
      PartsTidy(names, scan[..n], decode);
      if scan[n].Some? {
        var before, read := SegmentParts(names, scan[..n], decode), scan[n].value;
        var tables := SegmentSamples(names, read.tables, decode);
        SegmentContiguous(names, read.tables, decode);
        SegmentMetricsNonempty(names, read.tables, decode);
        SortedTokensContiguous(read.tokens);
        OneMoreTidy(before, tables);
        OneMoreTidy(before + [tables], read.tokens);
        assert before + [tables, read.tokens] == before + [tables] + [read.tokens];
      }
    }
  }

  lemma {:induction false} FlatNamed(parts: seq<seq<Sample>>)
    requires EachTidy(parts)
    ensures Named(Flat(parts))
  {
    hide Contiguous;
    if parts != [] {
      FlatNamed(parts[..|parts| - 1]);
    }
  }

  /** Any number of segments, and the health rows behind them: the page is well grouped
      exactly when every family that two of the runs share goes through from one to the
      other without a break, and none borrows the header's names. */
  lemma SegmentsGroupedExactlyWhen(names: seq<string>, scan: seq<Option<SegmentRead>>, health: seq<Sample>,
                                   decode: Decoder, up: uint64, duration: uint64, failed: bool)
    requires Tidy(names, scan) && OnlyOf(health, SEGMENT_UP)
    ensures var parts := SegmentParts(names, scan, decode) + [health];
      WellGrouped(Header(up, duration, failed) + Emit(Flat(parts))) <==>
      Apart(parts) && NoHeaderFamily(Flat(parts))
  {
    var parts := SegmentParts(names, scan, decode) + [health];
    PartsTidy(names, scan, decode);
    SegmentUpApart();
    OneMoreTidy(SegmentParts(names, scan, decode), health);
    FlatNamed(parts);
    FlatContiguousExactlyWhen(parts);
    PageGroupedExactlyWhen(Flat(parts), up, duration, failed);
  }

  ghost predicate NoneShared(a: seq<Sample>, b: seq<Sample>) {
    forall m :: !(Occurs(a, m) && Occurs(b, m))
  }

  /** Two segments, the same tokens read with each, nothing else shared: the page stays
      grouped exactly when there are no tokens, or a single family of them and not one
      table sample in the second segment to come between its two runs. */
  lemma TwoSegmentsGroupedExactlyWhen(names: seq<string>, one: map<string, Table>, two: map<string, Table>,
                                      tokens: seq<Sample>, health: seq<Sample>, decode: Decoder,
                                      up: uint64, duration: uint64, failed: bool)
    requires Tidy(names, [Some(SegmentRead(one, tokens)), Some(SegmentRead(two, tokens))])
    requires var a, b := SegmentSamples(names, one, decode), SegmentSamples(names, two, decode);
      NoneShared(a, tokens) && NoneShared(b, tokens) && NoneShared(a, b) &&
      NoneShared(a, health) && NoneShared(b, health) && NoneShared(tokens, health) &&
      NoHeaderFamily(a) && NoHeaderFamily(b) && NoHeaderFamily(tokens)
    requires OnlyOf(health, SEGMENT_UP)
    ensures var a, b := SegmentSamples(names, one, decode), SegmentSamples(names, two, decode);
      WellGrouped(Header(up, duration, failed) + Emit(a + tokens + b + tokens + health)) <==>
      tokens == [] || (b == [] && OnlyOf(tokens, tokens[0].metric))
  {
    var a, b := SegmentSamples(names, one, decode), SegmentSamples(names, two, decode);
    var scan := [Some(SegmentRead(one, tokens)), Some(SegmentRead(two, tokens))];
    var parts := [a, tokens, b, tokens, health];
    TwoParts(names, one, two, tokens, decode);
    SegmentsGroupedExactlyWhen(names, scan, health, decode, up, duration, failed);
    assert SegmentParts(names, scan, decode) + [health] == parts;
    FlatFive(a, tokens, b, tokens, health);
    SegmentUpApart();
    FiveApart(a, b, tokens, health);
    NoHeaderFlat(a, b, tokens, health);
  }

  lemma {:induction false} TwoParts(names: seq<string>, one: map<string, Table>, two: map<string, Table>,
                                    tokens: seq<Sample>, decode: Decoder)
    ensures SegmentParts(names, [Some(SegmentRead(one, tokens)), Some(SegmentRead(two, tokens))], decode) ==
      [SegmentSamples(names, one, decode), tokens, SegmentSamples(names, two, decode), tokens]
  {
    hide SegmentSamples;
    var first, second := Some(SegmentRead(one, tokens)), Some(SegmentRead(two, tokens));
    var scan := [first, second];
    assert scan[..1] == [first] && [first][..0] == [];
    assert SegmentParts(names, [first][..0], decode) == [];
    assert SegmentParts(names, [first], decode) == [SegmentSamples(names, one, decode), tokens];
  }

  lemma FlatFive(a: seq<Sample>, b: seq<Sample>, c: seq<Sample>, d: seq<Sample>, e: seq<Sample>)
    ensures Flat([a, b, c, d, e]) == a + b + c + d + e
  {
    assert [a, b, c, d, e][..4] == [a, b, c, d] && [a, b, c, d][..3] == [a, b, c];
    assert [a, b, c][..2] == [a, b] && [a, b][..1] == [a] && [a][..0] == [];
    assert Flat([a]) == [] + a == a;
    assert Flat([a, b]) == a + b;
    assert Flat([a, b, c]) == a + b + c;
    assert Flat([a, b, c, d]) == a + b + c + d;
  }

  lemma FiveApart(a: seq<Sample>, b: seq<Sample>, tokens: seq<Sample>, health: seq<Sample>)
    requires NoneShared(a, tokens) && NoneShared(b, tokens) && NoneShared(a, b)
    requires NoneShared(a, health) && NoneShared(b, health) && NoneShared(tokens, health)
    ensures Apart([a, tokens, b, tokens, health]) <==> tokens == [] || (b == [] && OnlyOf(tokens, tokens[0].metric))
  {
    var parts := [a, tokens, b, tokens, health];
    if tokens == [] {
      forall i, j, m | 0 <= i < j < 5 ensures !(Occurs(parts[i], m) && Occurs(parts[j], m)) {
      }
    } else {
      TokensBridge(parts, b, tokens);
      hide Bridge;
      hide Occurs;
      hide OnlyOf;
      assert forall i, j, m :: 0 <= i < j < 5 && Occurs(parts[i], m) && Occurs(parts[j], m) ==> i == 1 && j == 3;
      if Apart(parts) {
        assert forall m :: Occurs(tokens, m) ==> Bridge(parts, 1, 3, m);
      }
    }
  }

  lemma OnlyOfOccurs(p: seq<Sample>, m: string)
    requires OnlyOf(p, m)
    ensures p == [] || Occurs(p, m)
  {
    if p != [] {
      assert p[0].metric == m;
    }
  }

  lemma TokensBridge(parts: seq<seq<Sample>>, b: seq<Sample>, tokens: seq<Sample>)
    requires |parts| == 5 && parts[1] == tokens && parts[2] == b && parts[3] == tokens
    requires NoneShared(b, tokens) && tokens != []
    ensures (forall m :: Occurs(tokens, m) ==> Bridge(parts, 1, 3, m)) <==>
      b == [] && OnlyOf(tokens, tokens[0].metric)
  {
    var m0 := tokens[0].metric;
    assert Occurs(tokens, m0);
    if forall m :: Occurs(tokens, m) ==> Bridge(parts, 1, 3, m) {
      assert Bridge(parts, 1, 3, m0) && OnlyOf(parts[2], m0);
      OnlyOfOccurs(b, m0);
      forall i | 0 <= i < |tokens| ensures tokens[i].metric == m0 {
        assert Occurs(tokens, tokens[i].metric);
        assert Bridge(parts, 1, 3, tokens[i].metric);
      }
    }
  }

  lemma NoHeaderFlat(a: seq<Sample>, b: seq<Sample>, tokens: seq<Sample>, health: seq<Sample>)
    requires NoHeaderFamily(a) && NoHeaderFamily(b) && NoHeaderFamily(tokens) && OnlyOf(health, SEGMENT_UP)
    ensures NoHeaderFamily(a + tokens + b + tokens + health)
  {
    SegmentUpApart();
    hide HeaderFamily;
  }
}
