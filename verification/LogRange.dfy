/** `query_range`: Loki's per-stream answer as one list of lines, newest first. */
module LogRange {
  import opened Bytes
  import opened Ordering

  /** A stream's labels; `""` stands for an empty one, None for an absent one. */
  datatype Labels = Labels(cluster: Option<string>, namespace: Option<string>, pod: Option<string>,
                           container: Option<string>, level: Option<string>)

  datatype Stamped = Stamped(ts: int, line: string)
  datatype Stream = Stream(labels: Labels, values: seq<Stamped>)

  /** A line with its stream's labels folded onto it. */
  datatype Entry = Entry(ts: int, line: string, labels: Labels)

  /** `labels.get("level") or "unknown"`; the other labels are passed on as they are. */
  function Shown(l: Labels): Labels {
    if l.level.None? || l.level.value == "" then l.(level := Some("unknown")) else l
  }

  function EntryOf(s: Stream, v: Stamped): Entry {
    Entry(v.ts, v.line, Shown(s.labels))
  }

  function EntriesOf(s: Stream): (es: seq<Entry>)
    ensures |es| == |s.values|
  {
    seq(|s.values|, i requires 0 <= i < |s.values| => EntryOf(s, s.values[i]))
  }

  function Flatten(streams: seq<Stream>): seq<Entry> {
    if streams == [] then [] else Flatten(streams[..|streams| - 1]) + EntriesOf(streams[|streams| - 1])
  }

  /** Stream after stream, each line with its stream's labels, and "unknown" for a level
      that is absent or empty. */
  lemma {:induction false} FlattenIs(a: seq<Stream>, b: seq<Stream>, s: Stream)
    ensures Flatten([]) == [] && Flatten(a + b) == Flatten(a) + Flatten(b)
    ensures |Flatten([s])| == |s.values| && forall i :: 0 <= i < |s.values| ==> Carries(Flatten([s])[i], s, i)
    decreases |b|
  {
    OneStream(s);
    hide EntriesOf;
    hide Carries;
    if b == [] {
      assert a + b == a && Flatten(a) + Flatten(b) == Flatten(a);
    } else {
      FlattenIs(a, b[..|b| - 1], s);
      assert (a + b)[..|a + b| - 1] == a + b[..|b| - 1];
    }
  }

  predicate Carries(e: Entry, s: Stream, i: nat)
    requires i < |s.values|
  {
    e.ts == s.values[i].ts && e.line == s.values[i].line && e.labels.cluster == s.labels.cluster &&
    e.labels.namespace == s.labels.namespace && e.labels.pod == s.labels.pod &&
    e.labels.container == s.labels.container &&
    e.labels.level == if s.labels.level.None? || s.labels.level.value == "" then Some("unknown") else s.labels.level
  }

  lemma OneStream(s: Stream)
    ensures |Flatten([s])| == |s.values| && forall i :: 0 <= i < |s.values| ==> Carries(Flatten([s])[i], s, i)
  {
    assert [s][..0] == [] && [] + EntriesOf(s) == EntriesOf(s);
    assert Flatten([s]) == EntriesOf(s);
    hide Flatten;
    hide EntryOf;
    hide Carries;
    forall i | 0 <= i < |s.values| ensures Carries(EntriesOf(s)[i], s, i) {
      EntryCarries(s, i);
    }
  }

  lemma EntryCarries(s: Stream, i: nat)
    requires i < |s.values|
    ensures Carries(EntryOf(s, s.values[i]), s, i)
  {
  }

  predicate NotOlder(a: Entry, b: Entry) {
    a.ts >= b.ts
  }

  ghost predicate NewestFirst(es: seq<Entry>) {
    forall i, j :: 0 <= i < j < |es| ==> es[i].ts >= es[j].ts
  }

  /** How many items `es[:limit]` keeps; a negative limit counts from the end. */
  function SliceLength(length: nat, limit: int): (n: nat)
    ensures n <= length && (0 <= limit <= length ==> n == limit) && (limit > length ==> n == length)
    ensures limit < 0 ==> n == if length + limit < 0 then 0 else length + limit
  {
    if limit >= 0 then if limit < length then limit else length
    else if length + limit >= 0 then length + limit else 0
  }

  method AddStream(entries: seq<Entry>, s: Stream) returns (r: seq<Entry>)
    ensures r == entries + EntriesOf(s)
  {
    r := entries;
    for i := 0 to |s.values|
      invariant r == entries + EntriesOf(s)[..i]
    {
      var level := if s.labels.level.Some? then s.labels.level.value else "";
      var labels := s.labels.(level := Some(if level != "" then level else "unknown"));
      r := r + [Entry(s.values[i].ts, s.values[i].line, labels)];
      assert labels == Shown(s.labels);
    }
  }

  /** Every line of every stream is counted; those shown come newest first, and none
      that is cut off is newer than one that is shown. */
  method QueryRange(streams: seq<Stream>, limit: int) returns (entries: seq<Entry>, count: nat, ghost cut: seq<Entry>)
    ensures multiset(entries + cut) == multiset(Flatten(streams)) && NewestFirst(entries)
    ensures count == |Flatten(streams)| && |entries| == SliceLength(count, limit)
    ensures forall e, d :: e in entries && d in cut ==> d.ts <= e.ts
  {
    var all: seq<Entry> := [];
    for i := 0 to |streams|
      invariant all == Flatten(streams[..i])
    {
      assert streams[..i + 1][..i] == streams[..i];
      all := AddStream(all, streams[i]);
    }
    assert streams[..|streams|] == streams;
    hide *;
    var sorted := StableSort(all, NotOlder);
    SortedPresents(all, SliceLength(|all|, limit));
    var n := SliceLength(|all|, limit);
    entries, count, cut := sorted[..n], |all|, sorted[n..];
  }

  lemma SortedPresents(all: seq<Entry>, n: nat)
    requires n <= |all|
    ensures var sorted := StableSort(all, NotOlder);
      |sorted| == |all| && multiset(sorted[..n] + sorted[n..]) == multiset(all) && NewestFirst(sorted[..n]) &&
      forall e, d :: e in sorted[..n] && d in sorted[n..] ==> d.ts <= e.ts
  {
    OlderSorts(all);
    hide *;
    var sorted := StableSort(all, NotOlder);
    SameLength(sorted, all);
    CutIsOlder(sorted, n);
    CutJoins(sorted, n);
  }

  lemma OlderSorts(all: seq<Entry>)
    ensures SortedBy(StableSort(all, NotOlder), NotOlder) && multiset(StableSort(all, NotOlder)) == multiset(all)
  {
    assert TotalPreorder(NotOlder);
    hide *;
    StableSortSorts(all, NotOlder);
  }

  lemma CutJoins(es: seq<Entry>, n: nat)
    requires n <= |es|
    ensures es[..n] + es[n..] == es
  {
  }

  lemma SameLength(a: seq<Entry>, b: seq<Entry>)
    requires multiset(a) == multiset(b)
    ensures |a| == |b|
  {
    assert |a| == |multiset(a)| && |b| == |multiset(b)|;
  }

  lemma CutIsOlder(sorted: seq<Entry>, n: nat)
    requires n <= |sorted| && SortedBy(sorted, NotOlder)
    ensures NewestFirst(sorted[..n])
    ensures forall e, d :: e in sorted[..n] && d in sorted[n..] ==> d.ts <= e.ts
  {
    forall i, j | 0 <= i < j < |sorted| ensures sorted[i].ts >= sorted[j].ts {
      assert NotOlder(sorted[i], sorted[j]);
    }
    forall e, d | e in sorted[..n] && d in sorted[n..] ensures d.ts <= e.ts {
      var i :| 0 <= i < n && sorted[i] == e;
      var j :| 0 <= j < |sorted| - n && sorted[n..][j] == d;
      assert sorted[n + j] == d;
    }
  }
}
