/** Paging backward through a request log: `logs` and `_parse_log_lines` against a
    store that answers range queries newest first. */
module LogPaging {
  import opened Bytes
  import opened Ordering

  /** What a stored line holds: a request record, text that is not JSON, or JSON the
      row builder cannot read (not an object, or fields that are not numbers). */
  datatype Line = Record(id: nat) | NotJson(id: nat) | Unreadable(id: nat)

  datatype Entry = Entry(ts: int, line: Line)

  /** One `[timestamp, line]` pair of a stream; a malformed one is skipped. */
  datatype Pair = Good(entry: Entry) | Malformed

  datatype ParseResult = Rows(rows: seq<Entry>, oldest: Option<int>) | Raised

  // ---------------------------------------------------------------------
  // _parse_log_lines
  // ---------------------------------------------------------------------

  function GoodOf(pairs: seq<Pair>): seq<Entry> {
    if pairs == [] then []
    else
      var init, last := GoodOf(pairs[..|pairs| - 1]), pairs[|pairs| - 1];
      if last.Good? then init + [last.entry] else init
  }

  function Flatten(streams: seq<seq<Pair>>): seq<Entry> {
    if streams == [] then []
    else Flatten(streams[..|streams| - 1]) + GoodOf(streams[|streams| - 1])
  }

  lemma {:induction false} GoodOfIs(a: seq<Pair>, b: seq<Pair>, e: Entry)
    ensures GoodOf([]) == [] && GoodOf([Good(e)]) == [e] && GoodOf([Malformed]) == []
    ensures GoodOf(a + b) == GoodOf(a) + GoodOf(b)
    decreases |b|
  {
    var good: seq<Pair>, bad: seq<Pair> := [Good(e)], [Malformed];
    assert good[..0] == [] && bad[..0] == [];
    if b == [] {
      assert a + b == a && GoodOf(a) + GoodOf(b) == GoodOf(a);
    } else {
      GoodOfIs(a, b[..|b| - 1], e);
      assert (a + b)[..|a + b| - 1] == a + b[..|b| - 1];
    }
  }

  /** The streams' well-formed pairs, stream after stream. */
  lemma {:induction false} FlattenIs(a: seq<seq<Pair>>, b: seq<seq<Pair>>, s: seq<Pair>)
    ensures Flatten([]) == [] && Flatten([s]) == GoodOf(s) && Flatten(a + b) == Flatten(a) + Flatten(b)
    decreases |b|
  {
    assert [s][..0] == [];
    if b == [] {
      assert a + b == a && Flatten(a) + Flatten(b) == Flatten(a);
    } else {
      FlattenIs(a, b[..|b| - 1], s);
      assert (a + b)[..|a + b| - 1] == a + b[..|b| - 1];
      hide GoodOf;
    }
  }

  predicate NotOlder(a: Entry, b: Entry) {
    a.ts >= b.ts
  }

  /** `sort(key=ts, reverse=True)`: newest first, ties left in order. */
  function SortNewest(es: seq<Entry>): seq<Entry> {
    StableSort(es, NotOlder)
  }

  ghost predicate NewestFirst(es: seq<Entry>) {
    forall i, j :: 0 <= i < j < |es| ==> es[i].ts >= es[j].ts
  }

  lemma SortNewestFirst(es: seq<Entry>)
    ensures NewestFirst(SortNewest(es)) && multiset(SortNewest(es)) == multiset(es)
  {
    StableSortSorts(es, NotOlder);
    var r := SortNewest(es);
    assert forall i, j :: 0 <= i < j < |r| ==> NotOlder(r[i], r[j]);
  }

  /** The entries whose lines are request records. */
  function Records(es: seq<Entry>): (r: seq<Entry>)
    ensures |r| <= |es|
    ensures |r| == |es| <==> forall e :: e in es ==> e.line.Record?
  {
    if es == [] then []
    else
      var init, last := Records(es[..|es| - 1]), es[|es| - 1];
      assert es == es[..|es| - 1] + [last];
      if last.line.Record? then init + [last] else init
  }

  /** Of some entries, the records, in order: nothing lost, nothing added. */
  lemma {:induction false} RecordsIs(a: seq<Entry>, b: seq<Entry>, e: Entry)
    ensures Records([]) == [] && Records([e]) == (if e.line.Record? then [e] else [])
    ensures Records(a + b) == Records(a) + Records(b)
    decreases |b|
  {
    assert [e][..0] == [];
    if b == [] {
      assert a + b == a && Records(a) + Records(b) == Records(a);
    } else {
      RecordsIs(a, b[..|b| - 1], e);
      assert (a + b)[..|a + b| - 1] == a + b[..|b| - 1];
    }
  }

  method ParseLogLines(streams: seq<seq<Pair>>) returns (r: ParseResult)
    ensures var sorted := SortNewest(Flatten(streams));
      if exists e :: e in sorted && e.line.Unreadable? then r == Raised
      else r == Rows(Records(sorted), if sorted == [] then None else Some(sorted[|sorted| - 1].ts))
  {
    var entries: seq<Entry> := [];
    for i := 0 to |streams|
      invariant entries == Flatten(streams[..i])
    {
      assert streams[..i + 1][..i] == streams[..i];
      entries := AppendGood(entries, streams[i]);
    }
    assert streams[..|streams|] == streams;
    r := ReadLines(SortNewest(entries));
  }

  method ReadLines(entries: seq<Entry>) returns (r: ParseResult)
    ensures if exists e :: e in entries && e.line.Unreadable? then r == Raised
      else r == Rows(Records(entries), if entries == [] then None else Some(entries[|entries| - 1].ts))
  {
    var rows: seq<Entry> := [];
    for i := 0 to |entries|
      invariant rows == Records(entries[..i])
      invariant forall k :: 0 <= k < i ==> !entries[k].line.Unreadable?
    {
      assert entries[..i + 1][..i] == entries[..i];
      match entries[i].line
      case NotJson(_) =>
      case Unreadable(_) => return Raised;
      case Record(_) => rows := rows + [entries[i]];
    }
    assert entries[..|entries|] == entries;
    r := Rows(rows, if entries == [] then None else Some(entries[|entries| - 1].ts));
  }

  method AppendGood(entries: seq<Entry>, pairs: seq<Pair>) returns (r: seq<Entry>)
    ensures r == entries + GoodOf(pairs)
  {
    r := entries;
    for i := 0 to |pairs|
      invariant r == entries + GoodOf(pairs[..i])
    {
      assert pairs[..i + 1][..i] == pairs[..i];
      if pairs[i].Good? {
        r := r + [pairs[i].entry];
      }
    }
    assert pairs[..|pairs|] == pairs;
  }

  // ---------------------------------------------------------------------
  // The store's side
  // ---------------------------------------------------------------------

  /** Entries matching the query, as the store holds them. */
  type Store = set<Entry>

  /** How far short of the asked end the answers stop: 0 at a store that includes the
      end, 1 at one that does not. */
  type Gap = g: nat | g <= 1

  function Window(store: Store, start: int, end: int): Store {
    set e | e in store && start <= e.ts <= end
  }

  ghost predicate NoDuplicates(es: seq<Entry>) {
    forall i, j :: 0 <= i < j < |es| ==> es[i] != es[j]
  }

  /** The newest `limit` of a window, with ties cut anywhere. */
  ghost predicate Newest(es: seq<Entry>, window: Store, limit: nat) {
    NoDuplicates(es) && |es| <= limit &&
    (forall e :: e in es ==> e in window) &&
    (|es| < limit ==> forall e :: e in window ==> e in es) &&
    forall e, d :: e in es && d in window && d !in es ==> d.ts <= e.ts
  }

  /** The store answers with some such selection, spread over its streams in any way. */
  ghost predicate Answers(streams: seq<seq<Pair>>, store: Store, start: int, end: int, gap: Gap, limit: nat) {
    Newest(Flatten(streams), Window(store, start, end - gap), limit)
  }

  // ---------------------------------------------------------------------
  // logs
  // ---------------------------------------------------------------------

  function ClampLimit(limit: int): (r: nat)
    ensures 1 <= r <= 1000 && (1 <= limit <= 1000 ==> r == limit)
    ensures (limit < 1 ==> r == 1) && (limit > 1000 ==> r == 1000)
  {
    if limit < 1 then 1 else if limit > 1000 then 1000 else limit
  }

  datatype Page = Page(end: int, entries: seq<Entry>, next: Option<int>)

  /** One page: what was fetched, newest first, and the cursor to continue from. */
  ghost predicate IsPage(p: Page, store: Store, range: nat, gap: Gap, limit: nat) {
    Newest(p.entries, Window(store, p.end - range, p.end - gap), limit) && NewestFirst(p.entries) &&
    (forall e :: e in p.entries ==> !e.line.Unreadable?) &&
    p.next == if |p.entries| > 0 && |Records(p.entries)| >= limit
              then Some(p.entries[|p.entries| - 1].ts - 1) else None
  }

  lemma SortedIsNewest(es: seq<Entry>, sorted: seq<Entry>, window: Store, limit: nat)
    requires Newest(es, window, limit) && multiset(sorted) == multiset(es)
    ensures Newest(sorted, window, limit)
  {
    assert |sorted| == |multiset(sorted)| == |multiset(es)| == |es|;
    KeepsDistinct(es, sorted);
  }

  lemma Twice(es: seq<Entry>, i: nat, j: nat)
    requires i < j < |es| && es[i] == es[j]
    ensures multiset(es)[es[i]] >= 2
  {
    assert es == es[..j] + es[j..];
    assert es[..j][i] == es[i] && es[j..][0] == es[j];
  }

  lemma {:induction false} Once(es: seq<Entry>, e: Entry)
    requires NoDuplicates(es)
    ensures multiset(es)[e] <= 1
  {
    if es != [] {
      assert es == [es[0]] + es[1..];
      Once(es[1..], e);
    }
  }

  /** `logs` on one reply: `end` of 0 or none means now. The rows are the page's
      records, newest first. */
  method Logs(range: nat, limit: int, end: Option<int>, now: int, streams: seq<seq<Pair>>, ghost store: Store,
              ghost gap: Gap)
    returns (rows: seq<Entry>, next: Option<int>, raised: bool)
    requires var e := if end.Some? && end.value != 0 then end.value else now;
      Answers(streams, store, e - range, e, gap, ClampLimit(limit))
    ensures var e := if end.Some? && end.value != 0 then end.value else now;
      var p := Page(e, SortNewest(Flatten(streams)), next);
      !raised ==> IsPage(p, store, range, gap, ClampLimit(limit)) && rows == Records(p.entries)
    ensures raised <==> exists e :: e in SortNewest(Flatten(streams)) && e.line.Unreadable?
  {
    hide SortNewest;
    hide Flatten;
    hide Newest;
    hide Records;
    hide Window;
    var clamped := ClampLimit(limit);
    var parsed := ParseLogLines(streams);
    SortNewestFirst(Flatten(streams));
    ghost var e := if end.Some? && end.value != 0 then end.value else now;
    SortedIsNewest(Flatten(streams), SortNewest(Flatten(streams)), Window(store, e - range, e - gap), clamped);
    if parsed.Raised? {
      return [], None, true;
    }
    rows, raised := parsed.rows, false;
    next := if parsed.oldest.Some? && |rows| >= clamped then Some(parsed.oldest.value - 1) else None;
  }

  // ---------------------------------------------------------------------
  // Following the cursor
  // ---------------------------------------------------------------------

  /** Pages in the order a reader asks for them, each from the cursor before. A
      cursor of 0 would read as "from now", so the store's timestamps are past it. */
  ghost predicate IsRun(pages: seq<Page>, store: Store, range: nat, gap: Gap, limit: nat) {
    |pages| > 0 && limit > 0 &&
    (forall e :: e in store ==> e.ts > 1) &&
    (forall k :: 0 <= k < |pages| ==> IsPage(pages[k], store, range, gap, limit)) &&
    forall k :: 0 <= k < |pages| - 1 ==> pages[k].next == Some(pages[k + 1].end)
  }

  function Oldest(p: Page): int
    requires |p.entries| > 0
  {
    p.entries[|p.entries| - 1].ts
  }

  /** A page with a successor is full of records, and its successor ends just below it. */
  lemma StepDown(pages: seq<Page>, store: Store, range: nat, gap: Gap, limit: nat, k: nat)
    requires IsRun(pages, store, range, gap, limit) && k + 1 < |pages|
    ensures |pages[k].entries| > 0 && pages[k + 1].end == Oldest(pages[k]) - 1 < pages[k].end
    ensures forall e :: e in pages[k].entries ==> pages[k + 1].end < e.ts <= pages[k].end
    ensures |pages[k].entries| == limit && pages[k].end - range <= Oldest(pages[k])
  {
    var p := pages[k];
    assert IsPage(p, store, range, gap, limit) && p.next == Some(pages[k + 1].end);
    assert p.entries[|p.entries| - 1] in p.entries;
    forall e | e in p.entries ensures Oldest(p) <= e.ts <= p.end {
      var i :| 0 <= i < |p.entries| && p.entries[i] == e;
    }
  }

  lemma {:induction false} EndsDescend(pages: seq<Page>, store: Store, range: nat, gap: Gap, limit: nat, i: nat, j: nat)
    requires IsRun(pages, store, range, gap, limit) && i < j < |pages|
    ensures |pages[i].entries| > 0 && pages[j].end < Oldest(pages[i])
    decreases j - i
  {
    hide IsPage;
    StepDown(pages, store, range, gap, limit, i);
    if i + 1 < j {
      EndsDescend(pages, store, range, gap, limit, i + 1, j);
      StepDown(pages, store, range, gap, limit, i + 1);
    }
  }

  /** No entry comes twice: every page is strictly older than those before it, and
      newest first within itself. */
  lemma PagesStrictlyOlder(pages: seq<Page>, store: Store, range: nat, gap: Gap, limit: nat, i: nat, j: nat,
                           e: Entry, d: Entry)
    requires IsRun(pages, store, range, gap, limit) && i < j < |pages|
    requires e in pages[i].entries && d in pages[j].entries
    ensures d.ts < e.ts && d != e
    ensures NewestFirst(pages[i].entries) && NoDuplicates(pages[i].entries)
  {
    EndsDescend(pages, store, range, gap, limit, i, j);
    var q :| 0 <= q < |pages[i].entries| && pages[i].entries[q] == e;
    assert pages[i].entries[q].ts >= Oldest(pages[i]);
  }

  /** Everything fetched by the pages so far. */
  function Fetched(pages: seq<Page>): set<Entry> {
    set k, e | 0 <= k < |pages| && e in pages[k].entries :: e
  }

  // ---------------------------------------------------------------------
  // What a finished run has fetched
  // ---------------------------------------------------------------------

  /** The stored entries no newer than `end`, newest first. */
  ghost predicate Lists(rest: seq<Entry>, store: Store, end: int) {
    NewestFirst(rest) && NoDuplicates(rest) && forall e :: e in rest <==> e in store && e.ts <= end
  }

  predicate AllRecords(es: seq<Entry>) {
    forall i :: 0 <= i < |es| ==> es[i].line.Record?
  }

  /** Walking that list in strides of the limit: between a full stride of records and the
      next entry there is more than the gap, and where a full stride holds another line
      nothing older is left within the range. A stride is full when its oldest entry is
      within the range, counted from just below the stride before. */
  predicate Clean(rest: seq<Entry>, end: int, range: nat, gap: Gap, limit: nat)
    requires limit > 0
    decreases |rest|
  {
    if |rest| < limit || rest[limit - 1].ts < end - range then true
    else if AllRecords(rest[..limit]) then
      (|rest| == limit || rest[limit].ts < rest[limit - 1].ts - gap) &&
      Clean(rest[limit..], rest[limit - 1].ts - 1, range, gap, limit)
    else |rest| == limit || rest[limit].ts < end - range
  }

  function SetOf(es: seq<Entry>): set<Entry> {
    set e | e in es
  }

  lemma {:induction false} SetOfSize(es: seq<Entry>)
    ensures |SetOf(es)| <= |es|
    ensures NoDuplicates(es) ==> |SetOf(es)| == |es|
  {
    if es == [] {
      assert SetOf(es) == {};
    } else {
      var init, last := es[..|es| - 1], es[|es| - 1];
      SetOfSize(init);
      assert es == init + [last];
      assert SetOf(es) == SetOf(init) + {last};
    }
  }

  /** More distinct entries than fit: one is left over. */
  lemma OneLeftOut(many: seq<Entry>, few: seq<Entry>) returns (e: Entry)
    requires NoDuplicates(many) && |many| > |few|
    ensures e in many && e !in few
  {
    SetOfSize(many);
    SetOfSize(few);
    if SetOf(many) <= SetOf(few) {
      SubsetSize(SetOf(many), SetOf(few));
      assert false;
    }
    e :| e in SetOf(many) && e !in SetOf(few);
  }

  lemma AtMost(es: seq<Entry>, few: seq<Entry>)
    requires NoDuplicates(es) && forall e :: e in es ==> e in few
    ensures |es| <= |few|
  {
    SetOfSize(es);
    SetOfSize(few);
    SubsetSize(SetOf(es), SetOf(few));
  }

  lemma SameSize(a: seq<Entry>, b: seq<Entry>)
    requires NoDuplicates(a) && NoDuplicates(b) && |a| == |b|
    requires forall e :: e in a ==> e in b
    ensures forall e :: e in b ==> e in a
  {
    SetOfSize(a);
    SetOfSize(b);
    forall e | e in b ensures e in a {
      if e !in SetOf(a) {
        SubsetSize(SetOf(a), SetOf(b) - {e});
      }
    }
  }

  lemma WithoutTail(rest: seq<Entry>, n: nat, e: Entry)
    requires NewestFirst(rest) && n < |rest| && e in rest && e.ts > rest[n].ts
    ensures e in rest[..n]
  {
    var i :| 0 <= i < |rest| && rest[i] == e;
    assert rest[..n][i] == e;
  }

  lemma NotAbove(rest: seq<Entry>, n: nat, e: Entry)
    requires NewestFirst(rest) && n < |rest| && e in rest && e !in rest[..n]
    ensures e.ts <= rest[n].ts
  {
    if e.ts > rest[n].ts {
      WithoutTail(rest, n, e);
    }
  }

  lemma PrefixDistinct(rest: seq<Entry>, n: nat)
    requires NoDuplicates(rest) && n <= |rest|
    ensures NoDuplicates(rest[..n]) && NoDuplicates(rest[n..])
    ensures forall e :: e in rest[..n] ==> e in rest
    ensures forall e :: e in rest[..n] ==> e !in rest[n..]
  {
  }

  /** The page is not full: everything in the window is on it. */
  lemma ShortPage(p: Page, rest: seq<Entry>, store: Store, range: nat, gap: Gap, limit: nat)
    requires limit > 0 && IsPage(p, store, range, gap, limit) && Lists(rest, store, p.end - gap)
    requires |rest| < limit || rest[limit - 1].ts < p.end - range
    ensures p.next.None? && HoldsWindow(p, store, range, gap)
  {
    hide *;
    var few := if |rest| < limit then rest else rest[..limit - 1];
    forall e | e in p.entries ensures e in few {
      InWindow(p, store, range, gap, limit, e);
      InListing(rest, store, p.end - gap, e);
      if |rest| >= limit {
        ListsNewestFirst(rest, store, p.end - gap);
        WithoutTail(rest, limit - 1, e);
      }
    }
    PageDistinct(p, store, range, gap, limit);
    AtMost(p.entries, few);
    NotFull(p, store, range, gap, limit);
  }

  lemma InListing(rest: seq<Entry>, store: Store, top: int, e: Entry)
    requires Lists(rest, store, top) && e in store && e.ts <= top
    ensures e in rest
  {
  }

  lemma ListsNewestFirst(rest: seq<Entry>, store: Store, top: int)
    requires Lists(rest, store, top)
    ensures NewestFirst(rest) && NoDuplicates(rest)
  {
    hide NewestFirst;
    hide NoDuplicates;
  }

  lemma NotFull(p: Page, store: Store, range: nat, gap: Gap, limit: nat)
    requires IsPage(p, store, range, gap, limit) && |p.entries| < limit
    ensures p.next.None? && HoldsWindow(p, store, range, gap)
  {
  }

  lemma StrideInWindow(p: Page, rest: seq<Entry>, store: Store, range: nat, gap: Gap, limit: nat)
    requires 0 < limit <= |rest| && Lists(rest, store, p.end - gap) && rest[limit - 1].ts >= p.end - range
    ensures NoDuplicates(rest[..limit])
    ensures forall d :: d in rest[..limit] ==>
      d in Window(store, p.end - range, p.end - gap) && d.ts >= rest[limit - 1].ts
  {
    PrefixDistinct(rest, limit);
    forall d | d in rest[..limit] ensures d.ts >= rest[limit - 1].ts && d in store && d.ts <= p.end - gap {
      var i :| 0 <= i < limit && rest[..limit][i] == d;
      assert rest[i] == d && d in rest;
    }
  }

  /** The page is full: it reaches down to the timestamp of the entry at the limit, and
      holds everything newer than that. */
  lemma FullPage(p: Page, rest: seq<Entry>, store: Store, range: nat, gap: Gap, limit: nat)
    requires limit > 0 && IsPage(p, store, range, gap, limit) && Lists(rest, store, p.end - gap)
    requires |rest| >= limit && rest[limit - 1].ts >= p.end - range
    ensures |p.entries| == limit && Oldest(p) == rest[limit - 1].ts
    ensures forall e :: e in p.entries ==> e.ts >= Oldest(p)
    ensures forall e :: e in store && Oldest(p) < e.ts <= p.end - gap ==> e in p.entries
  {
    NotBelowStride(p, rest, store, range, gap, limit);
    var low := ReachesDown(p, rest, store, range, gap, limit);
    hide *;
    LastIsOldest(p, store, range, gap, limit, low);
    forall d | d in store && low.ts < d.ts <= p.end - gap ensures d in p.entries {
      OffPage(p, store, range, gap, limit, low, d);
    }
  }

  lemma FullSize(p: Page, rest: seq<Entry>, store: Store, range: nat, gap: Gap, limit: nat)
    requires limit > 0 && IsPage(p, store, range, gap, limit) && Lists(rest, store, p.end - gap)
    requires |rest| >= limit && rest[limit - 1].ts >= p.end - range
    ensures |p.entries| == limit
  {
    StrideInWindow(p, rest, store, range, gap, limit);
    if |p.entries| < limit {
      assert forall d :: d in rest[..limit] ==> d in p.entries;
      hide *;
      AtMost(rest[..limit], p.entries);
    }
  }

  lemma NotBelowStride(p: Page, rest: seq<Entry>, store: Store, range: nat, gap: Gap, limit: nat)
    requires limit > 0 && IsPage(p, store, range, gap, limit) && Lists(rest, store, p.end - gap)
    requires |rest| >= limit && rest[limit - 1].ts >= p.end - range
    ensures |p.entries| == limit && forall e :: e in p.entries ==> e.ts >= rest[limit - 1].ts
  {
    FullSize(p, rest, store, range, gap, limit);
    PageDistinct(p, store, range, gap, limit);
    StrideInWindow(p, rest, store, range, gap, limit);
    hide *;
    var stride, t := rest[..limit], rest[limit - 1].ts;
    forall e | e in p.entries ensures e.ts >= t {
      if forall d :: d in stride ==> d in p.entries {
        SameSize(stride, p.entries);
      } else {
        var d :| d in stride && d !in p.entries;
        LeftOff(p, store, range, gap, limit, e, d);
      }
    }
  }

  /** What is in the window and not on the page is no newer than what is. */
  lemma LeftOff(p: Page, store: Store, range: nat, gap: Gap, limit: nat, e: Entry, d: Entry)
    requires IsPage(p, store, range, gap, limit) && e in p.entries && d !in p.entries
    requires d in Window(store, p.end - range, p.end - gap)
    ensures d.ts <= e.ts
  {
  }

  lemma OffPage(p: Page, store: Store, range: nat, gap: Gap, limit: nat, e: Entry, d: Entry)
    requires IsPage(p, store, range, gap, limit) && e in p.entries
    requires d in store && e.ts < d.ts <= p.end - gap
    ensures d in p.entries
  {
    assert e in Window(store, p.end - range, p.end - gap);
    assert d in Window(store, p.end - range, p.end - gap);
  }

  lemma LastIsOldest(p: Page, store: Store, range: nat, gap: Gap, limit: nat, low: Entry)
    requires IsPage(p, store, range, gap, limit) && low in p.entries
    requires forall e :: e in p.entries ==> e.ts >= low.ts
    ensures |p.entries| > 0 && Oldest(p) == low.ts
  {
    var i :| 0 <= i < |p.entries| && p.entries[i] == low;
    assert p.entries[|p.entries| - 1] in p.entries;
  }

  /** A full page cannot lie wholly above the entry at the limit. */
  lemma ReachesDown(p: Page, rest: seq<Entry>, store: Store, range: nat, gap: Gap, limit: nat) returns (e: Entry)
    requires limit > 0 && IsPage(p, store, range, gap, limit) && Lists(rest, store, p.end - gap)
    requires |rest| >= limit == |p.entries|
    ensures e in p.entries && e.ts <= rest[limit - 1].ts
  {
    var n: nat := limit - 1;
    e := OneLeftOut(p.entries, rest[..n]);
    InWindow(p, store, range, gap, limit, e);
    assert e in rest;
    NotAbove(rest, n, e);
  }

  /** Below the cut: the listing goes on with just what is older. */
  lemma StrideThenRest(rest: seq<Entry>, store: Store, top: int, gap: Gap, limit: nat)
    requires 0 < limit <= |rest| && Lists(rest, store, top)
    requires |rest| == limit || rest[limit].ts < rest[limit - 1].ts - gap
    ensures forall e :: e in rest[..limit] <==> e in store && rest[limit - 1].ts - 1 - gap < e.ts <= top
    ensures Lists(rest[limit..], store, rest[limit - 1].ts - 1 - gap)
  {
    var t, head, tail := rest[limit - 1].ts, rest[..limit], rest[limit..];
    PrefixDistinct(rest, limit);
    HeadAndTail(rest, gap, limit);
    assert rest == head + tail;
    assert forall e :: e in rest <==> e in head || e in tail;
    TailNewestFirst(rest, limit);
  }

  lemma HeadAndTail(rest: seq<Entry>, gap: Gap, limit: nat)
    requires 0 < limit <= |rest| && NewestFirst(rest)
    requires |rest| == limit || rest[limit].ts < rest[limit - 1].ts - gap
    ensures forall e :: e in rest[..limit] ==> e.ts >= rest[limit - 1].ts
    ensures forall e :: e in rest[limit..] ==> e.ts < rest[limit - 1].ts - gap
  {
  }

  lemma TailNewestFirst(rest: seq<Entry>, limit: nat)
    requires limit <= |rest| && NewestFirst(rest)
    ensures NewestFirst(rest[limit..])
  {
  }

  ghost predicate SameMembers(a: seq<Entry>, b: seq<Entry>) {
    forall e :: e in a <==> e in b
  }

  /** The page holds all the store has from where its successor begins up to its end. */
  ghost predicate WholeStretch(p: Page, store: Store, gap: Gap)
    requires |p.entries| > 0
  {
    forall e :: e in p.entries <==> e in store && Oldest(p) - 1 - gap < e.ts <= p.end - gap
  }

  /** No tie at the cut: the page is the stride. */
  lemma UntiedPage(p: Page, rest: seq<Entry>, store: Store, range: nat, gap: Gap, limit: nat)
    requires limit > 0 && IsPage(p, store, range, gap, limit) && Lists(rest, store, p.end - gap)
    requires |rest| >= limit && rest[limit - 1].ts >= p.end - range
    requires |rest| == limit || rest[limit].ts < rest[limit - 1].ts
    ensures |p.entries| == limit && Oldest(p) == rest[limit - 1].ts
    ensures SameMembers(p.entries, rest[..limit])
  {
    FullPage(p, rest, store, range, gap, limit);
    StrideThenRest(rest, store, p.end - gap, 0, limit);
    PageDistinct(p, store, range, gap, limit);
    PrefixDistinct(rest, limit);
    forall e | e in p.entries ensures e in store && e.ts <= p.end - gap {
      InWindow(p, store, range, gap, limit, e);
    }
    hide *;
    hide Lists;
    SameSize(p.entries, rest[..limit]);
    assert SameMembers(p.entries, rest[..limit]) by {
      hide *;
      MembersBoth(p.entries, rest[..limit]);
    }
  }

  lemma MembersBoth(a: seq<Entry>, b: seq<Entry>)
    requires forall e :: e in a ==> e in b
    requires forall e :: e in b ==> e in a
    ensures SameMembers(a, b)
  {
  }

  /** Nor within the gap below it: the page holds everything down to its successor. */
  lemma UncutPage(p: Page, rest: seq<Entry>, store: Store, range: nat, gap: Gap, limit: nat)
    requires 0 < limit <= |rest| && Lists(rest, store, p.end - gap)
    requires |rest| == limit || rest[limit].ts < rest[limit - 1].ts - gap
    requires SameMembers(p.entries, rest[..limit]) && |p.entries| > 0 && Oldest(p) == rest[limit - 1].ts
    ensures WholeStretch(p, store, gap) && Lists(rest[limit..], store, Oldest(p) - 1 - gap)
  {
    StrideThenRest(rest, store, p.end - gap, gap, limit);
    hide Lists;
  }

  lemma InWindow(p: Page, store: Store, range: nat, gap: Gap, limit: nat, e: Entry)
    requires IsPage(p, store, range, gap, limit) && e in p.entries
    ensures e in store && p.end - range <= e.ts <= p.end - gap
  {
    assert e in Window(store, p.end - range, p.end - gap);
  }

  lemma PageDistinct(p: Page, store: Store, range: nat, gap: Gap, limit: nat)
    requires IsPage(p, store, range, gap, limit)
    ensures NoDuplicates(p.entries) && |p.entries| <= limit
    ensures forall e :: e in p.entries ==> !e.line.Unreadable?
  {
  }

  /** A tie at the cut: one of its entries is not on the page. */
  lemma CutTie(p: Page, rest: seq<Entry>, store: Store, range: nat, gap: Gap, limit: nat) returns (e: Entry)
    requires limit > 0 && IsPage(p, store, range, gap, limit) && Lists(rest, store, p.end - gap)
    requires |rest| > limit && p.end - range <= rest[limit - 1].ts == rest[limit].ts
    ensures |p.entries| > 0 && e in store && e.ts == Oldest(p) && e !in p.entries
    ensures p.end - range <= e.ts <= p.end - gap
  {
    FullPage(p, rest, store, range, gap, limit);
    PrefixDistinct(rest, limit + 1);
    e := OneLeftOut(rest[..limit + 1], p.entries);
    assert e in rest;
    var i :| 0 <= i < limit + 1 && rest[..limit + 1][i] == e;
    assert rest[i].ts >= rest[limit].ts;
  }

  lemma RunTail(pages: seq<Page>, store: Store, range: nat, gap: Gap, limit: nat) returns (later: seq<Page>)
    requires IsRun(pages, store, range, gap, limit) && |pages| > 1
    ensures later == pages[1..] && IsRun(later, store, range, gap, limit)
    ensures |later| == |pages| - 1 && later[0] == pages[1] && later[|later| - 1] == pages[|pages| - 1]
  {
    hide IsPage;
    later := pages[1..];
  }

  lemma FetchedSplit(pages: seq<Page>)
    requires |pages| > 0
    ensures Fetched(pages) == SetOf(pages[0].entries) + Fetched(pages[1..])
  {
    forall e | e in Fetched(pages[1..]) ensures e in Fetched(pages) {
      var k :| 0 <= k < |pages| - 1 && e in pages[1..][k].entries;
      assert e in pages[k + 1].entries;
    }
    forall e | e in Fetched(pages) ensures e in SetOf(pages[0].entries) + Fetched(pages[1..]) {
      var k :| 0 <= k < |pages| && e in pages[k].entries;
      assert k > 0 ==> e in pages[1..][k - 1].entries;
    }
  }

  /** Entries fetched later are below the first page. */
  lemma LaterBelow(pages: seq<Page>, store: Store, range: nat, gap: Gap, limit: nat, e: Entry)
    requires IsRun(pages, store, range, gap, limit) && |pages| > 1 && e in Fetched(pages[1..])
    ensures |pages[0].entries| > 0 && e.ts < Oldest(pages[0])
  {
    FirstPage(pages, store, range, gap, limit);
    StepDown(pages, store, range, gap, limit, 0);
    hide *;
    LaterWithin(pages, store, range, gap, limit, e);
  }

  lemma LaterWithin(pages: seq<Page>, store: Store, range: nat, gap: Gap, limit: nat, e: Entry)
    requires IsRun(pages, store, range, gap, limit) && |pages| > 1 && e in Fetched(pages[1..])
    ensures e.ts <= pages[1].end - gap
  {
    var later := RunTail(pages, store, range, gap, limit);
    hide *;
    var k := FetchedFrom(later, e);
    PageOf(later, store, range, gap, limit, k);
    InWindow(later[k], store, range, gap, limit, e);
    EndsBetween(later, store, range, gap, limit, k);
  }

  lemma FetchedFrom(pages: seq<Page>, e: Entry) returns (i: nat)
    requires e in Fetched(pages)
    ensures i < |pages| && e in pages[i].entries
  {
    i :| i < |pages| && e in pages[i].entries;
  }

  lemma PageOf(pages: seq<Page>, store: Store, range: nat, gap: Gap, limit: nat, k: nat)
    requires IsRun(pages, store, range, gap, limit) && k < |pages|
    ensures IsPage(pages[k], store, range, gap, limit)
  {
    hide IsPage;
  }

  ghost predicate HoldsWindow(p: Page, store: Store, range: nat, gap: Gap) {
    SetOf(p.entries) == Window(store, p.end - range, p.end - gap)
  }

  lemma CompleteOne(pages: seq<Page>, store: Store, range: nat, gap: Gap, limit: nat)
    requires IsRun(pages, store, range, gap, limit) && pages[0].next.None?
    ensures |pages| == 1 && (Complete(pages, store, range, gap) <==> HoldsWindow(pages[0], store, range, gap))
  {
    FirstPage(pages, store, range, gap, limit);
    hide IsRun;
    hide Window;
    FetchedSplit(pages);
    NothingFetched(pages[1..]);
  }

  /** An entry in the run's stretch, neither on the first page nor below it, is lost. */
  lemma RunLoses(pages: seq<Page>, store: Store, range: nat, gap: Gap, limit: nat, e: Entry)
    requires IsRun(pages, store, range, gap, limit) && |pages[0].entries| > 0
    requires e in store && e !in pages[0].entries
    requires |pages| > 1 ==> pages[1].end - gap < e.ts
    requires pages[|pages| - 1].end - range <= e.ts <= pages[0].end - gap
    ensures !Complete(pages, store, range, gap)
  {
    FirstPage(pages, store, range, gap, limit);
    hide *;
    FetchedSplit(pages);
    if |pages| > 1 {
      forall d | d in Fetched(pages[1..]) ensures d != e {
        LaterWithin(pages, store, range, gap, limit, d);
      }
    } else {
      NothingFetched(pages[1..]);
    }
    NotInSetOf(pages[0].entries, e);
    MissedOne(pages, store, range, gap, e);
  }

  lemma MissedOne(pages: seq<Page>, store: Store, range: nat, gap: Gap, e: Entry)
    requires |pages| > 0 && e in store && e !in Fetched(pages)
    requires pages[|pages| - 1].end - range <= e.ts <= pages[0].end - gap
    ensures !Complete(pages, store, range, gap)
  {
    hide Fetched;
    assert e in Window(store, pages[|pages| - 1].end - range, pages[0].end - gap);
  }

  lemma NothingFetched(pages: seq<Page>)
    requires |pages| == 0
    ensures Fetched(pages) == {}
  {
  }

  lemma NotInSetOf(es: seq<Entry>, e: Entry)
    requires e !in es
    ensures e !in SetOf(es)
  {
  }

  lemma StretchSplits(p: Page, store: Store, gap: Gap, bottom: int)
    requires |p.entries| > 0 && WholeStretch(p, store, gap) && bottom <= Oldest(p)
    requires forall e :: e in p.entries ==> e.ts >= Oldest(p)
    ensures Window(store, bottom, p.end - gap) == SetOf(p.entries) + Window(store, bottom, Oldest(p) - 1 - gap)
    ensures SetOf(p.entries) !! Window(store, bottom, Oldest(p) - 1 - gap)
  {
  }

  lemma SameHead(head: set<Entry>, tail: set<Entry>, below: set<Entry>)
    requires head !! tail && head !! below
    ensures head + tail == head + below <==> tail == below
  {
    if head + tail == head + below {
      assert tail == (head + tail) - head && below == (head + below) - head;
    }
  }

  /** The later pages' entries are none of the first page's. */
  lemma LaterApart(pages: seq<Page>, store: Store, range: nat, gap: Gap, limit: nat)
    requires IsRun(pages, store, range, gap, limit) && |pages| > 1
    ensures SetOf(pages[0].entries) !! Fetched(pages[1..])
    ensures |pages[0].entries| > 0 && forall e :: e in pages[0].entries ==> e.ts >= Oldest(pages[0])
  {
    StepDown(pages, store, range, gap, limit, 0);
    hide *;
    hide IsRun;
    assert forall e :: e in pages[0].entries ==> e.ts >= Oldest(pages[0]);
    forall e | e in Fetched(pages[1..]) ensures e !in SetOf(pages[0].entries) {
      LaterBelow(pages, store, range, gap, limit, e);
    }
  }

  /** The first page is whole and has a successor: what is left is the successor's. */
  lemma WholeThenRest(pages: seq<Page>, later: seq<Page>, store: Store, range: nat, gap: Gap, limit: nat)
    requires IsRun(pages, store, range, gap, limit) && |pages| > 1 && |pages[0].entries| > 0
    requires WholeStretch(pages[0], store, gap)
    requires later == pages[1..] && |later| == |pages| - 1
    requires later[0] == pages[1] && later[|later| - 1] == pages[|pages| - 1]
    ensures Complete(pages, store, range, gap) <==> Complete(later, store, range, gap)
  {
    hide *;
    NextBelow(pages, store, range, gap, limit);
    LaterApart(pages, store, range, gap, limit);
    var bottom := pages[|pages| - 1].end - range;
    FetchedSplit(pages);
    StretchSplits(pages[0], store, gap, bottom);
    SameHead(SetOf(pages[0].entries), Fetched(later), Window(store, bottom, later[0].end - gap));
    CompleteIs(pages, store, range, gap);
    CompleteIs(later, store, range, gap);
  }

  lemma CompleteIs(pages: seq<Page>, store: Store, range: nat, gap: Gap)
    requires |pages| > 0
    ensures Complete(pages, store, range, gap) <==>
      Fetched(pages) == Window(store, pages[|pages| - 1].end - range, pages[0].end - gap)
  {
  }

  lemma RecordsOnPage(p: Page, stride: seq<Entry>, store: Store, range: nat, gap: Gap, limit: nat)
    requires limit > 0 && IsPage(p, store, range, gap, limit) && |p.entries| == limit
    requires SameMembers(p.entries, stride)
    ensures AllRecords(stride) <==> p.next.Some?
  {
    hide Newest;
    if AllRecords(stride) {
      forall e | e in p.entries ensures e.line.Record? {
        var i :| 0 <= i < |stride| && stride[i] == e;
      }
    } else {
      var i :| 0 <= i < |stride| && !stride[i].line.Record?;
      assert stride[i] in p.entries;
    }
  }

  /** A finished run fetches the whole stretch of time, from the first page's end down
      to the last page's window start, exactly when the stored entries, walked in strides
      of the limit, are clean. `rest` is any newest-first listing of the store from the
      first page's end down; nothing here looks at what the pages turned out to hold. */
  lemma {:induction false} CompleteExactlyWhen(pages: seq<Page>, store: Store, range: nat, gap: Gap, limit: nat,
                                               rest: seq<Entry>)
    requires IsRun(pages, store, range, gap, limit) && pages[|pages| - 1].next.None?
    requires Lists(rest, store, pages[0].end - gap)
    ensures Complete(pages, store, range, gap) <==> Clean(rest, pages[0].end, range, gap, limit)
    decreases |pages|
  {
    FirstPage(pages, store, range, gap, limit);
    hide *;
    var end := pages[0].end;
    CleanUnfolds(rest, end, range, gap, limit);
    if |rest| < limit || rest[limit - 1].ts < end - range {
      CompleteShort(pages, store, range, gap, limit, rest);
    } else if |rest| > limit && rest[limit].ts >= rest[limit - 1].ts {
      CompleteTied(pages, store, range, gap, limit, rest);
    } else if pages[0].next.None? {
      CompleteLast(pages, store, range, gap, limit, rest);
    } else if |rest| > limit && rest[limit].ts >= rest[limit - 1].ts - gap {
      CompleteSkips(pages, store, range, gap, limit, rest);
    } else {
      var later := CompleteOn(pages, store, range, gap, limit, rest);
      CompleteExactlyWhen(later, store, range, gap, limit, rest[limit..]);
    }
  }

  lemma CleanUnfolds(rest: seq<Entry>, end: int, range: nat, gap: Gap, limit: nat)
    requires limit > 0
    ensures |rest| < limit || rest[limit - 1].ts < end - range ==> Clean(rest, end, range, gap, limit)
    ensures |rest| >= limit && rest[limit - 1].ts >= end - range ==>
      (Clean(rest, end, range, gap, limit) <==>
       if AllRecords(rest[..limit]) then
         (|rest| == limit || rest[limit].ts < rest[limit - 1].ts - gap) &&
         Clean(rest[limit..], rest[limit - 1].ts - 1, range, gap, limit)
       else |rest| == limit || rest[limit].ts < end - range)
  {
    hide AllRecords;
  }

  ghost predicate Complete(pages: seq<Page>, store: Store, range: nat, gap: Gap)
    requires |pages| > 0
  {
    Fetched(pages) == Window(store, pages[|pages| - 1].end - range, pages[0].end - gap)
  }

  lemma FirstPage(pages: seq<Page>, store: Store, range: nat, gap: Gap, limit: nat)
    requires IsRun(pages, store, range, gap, limit)
    ensures |pages| > 0 && limit > 0 && IsPage(pages[0], store, range, gap, limit)
    ensures |pages| > 1 ==> pages[0].next == Some(pages[1].end)
  {
    hide IsPage;
  }

  lemma Descends(rest: seq<Entry>, store: Store, end: int, limit: nat)
    requires limit > 0 && Lists(rest, store, end)
    ensures |rest| > limit ==> rest[limit].ts <= rest[limit - 1].ts
  {
  }

  lemma CompleteShort(pages: seq<Page>, store: Store, range: nat, gap: Gap, limit: nat, rest: seq<Entry>)
    requires IsRun(pages, store, range, gap, limit) && Lists(rest, store, pages[0].end - gap)
    requires |rest| < limit || rest[limit - 1].ts < pages[0].end - range
    ensures Complete(pages, store, range, gap)
  {
    FirstPage(pages, store, range, gap, limit);
    hide *;
    ShortPage(pages[0], rest, store, range, gap, limit);
    CompleteOne(pages, store, range, gap, limit);
  }

  lemma CompleteTied(pages: seq<Page>, store: Store, range: nat, gap: Gap, limit: nat, rest: seq<Entry>)
    requires IsRun(pages, store, range, gap, limit) && Lists(rest, store, pages[0].end - gap)
    requires |rest| >= limit && rest[limit - 1].ts >= pages[0].end - range
    requires |rest| > limit && rest[limit].ts >= rest[limit - 1].ts
    ensures !Complete(pages, store, range, gap) && rest[limit].ts == rest[limit - 1].ts
  {
    FirstPage(pages, store, range, gap, limit);
    Descends(rest, store, pages[0].end - gap, limit);
    EndsBetween(pages, store, range, gap, limit, 0);
    if |pages| > 1 {
      NextBelow(pages, store, range, gap, limit);
    }
    hide *;
    var e := CutTie(pages[0], rest, store, range, gap, limit);
    RunLoses(pages, store, range, gap, limit, e);
  }

  lemma NextBelow(pages: seq<Page>, store: Store, range: nat, gap: Gap, limit: nat)
    requires IsRun(pages, store, range, gap, limit) && |pages| > 1
    ensures |pages[0].entries| > 0 && pages[1].end == Oldest(pages[0]) - 1
    ensures pages[|pages| - 1].end <= pages[1].end
  {
    StepDown(pages, store, range, gap, limit, 0);
    EndsBetween(pages, store, range, gap, limit, 1);
  }

  /** The last page, untied: complete exactly when nothing older is in its window. */
  lemma CompleteLast(pages: seq<Page>, store: Store, range: nat, gap: Gap, limit: nat, rest: seq<Entry>)
    requires IsRun(pages, store, range, gap, limit) && Lists(rest, store, pages[0].end - gap)
    requires |rest| >= limit && rest[limit - 1].ts >= pages[0].end - range
    requires |rest| == limit || rest[limit].ts < rest[limit - 1].ts
    requires pages[0].next.None?
    ensures !AllRecords(rest[..limit])
    ensures Complete(pages, store, range, gap) <==>
      |rest| == limit || rest[limit].ts < pages[0].end - range
  {
    FirstPage(pages, store, range, gap, limit);
    hide *;
    UntiedPage(pages[0], rest, store, range, gap, limit);
    RecordsOnPage(pages[0], rest[..limit], store, range, gap, limit);
    LastFull(pages[0], rest, store, range, gap, limit);
    CompleteOne(pages, store, range, gap, limit);
  }

  /** An entry between a page's oldest and where the next page begins is never fetched. */
  lemma CompleteSkips(pages: seq<Page>, store: Store, range: nat, gap: Gap, limit: nat, rest: seq<Entry>)
    requires IsRun(pages, store, range, gap, limit) && Lists(rest, store, pages[0].end - gap)
    requires |rest| >= limit && rest[limit - 1].ts >= pages[0].end - range
    requires pages[0].next.Some? && pages[|pages| - 1].next.None?
    requires |rest| > limit && rest[limit - 1].ts - gap <= rest[limit].ts < rest[limit - 1].ts
    ensures AllRecords(rest[..limit]) && !Complete(pages, store, range, gap)
  {
    FirstPage(pages, store, range, gap, limit);
    hide *;
    UntiedPage(pages[0], rest, store, range, gap, limit);
    RecordsOnPage(pages[0], rest[..limit], store, range, gap, limit);
    HasNext(pages, store, range, gap, limit);
    Listed(rest, store, pages[0].end - gap, limit);
    BelowPage(pages[0], store, range, gap, limit, rest[limit]);
    NextBelow(pages, store, range, gap, limit);
    RunLoses(pages, store, range, gap, limit, rest[limit]);
  }

  lemma WholePage(p: Page, rest: seq<Entry>, store: Store, range: nat, gap: Gap, limit: nat)
    requires limit > 0 && IsPage(p, store, range, gap, limit) && Lists(rest, store, p.end - gap)
    requires |rest| >= limit && rest[limit - 1].ts >= p.end - range
    requires |rest| == limit || rest[limit].ts < rest[limit - 1].ts - gap
    requires p.next.Some?
    ensures AllRecords(rest[..limit]) && Lists(rest[limit..], store, rest[limit - 1].ts - 1 - gap)
    ensures |p.entries| > 0 && Oldest(p) == rest[limit - 1].ts && WholeStretch(p, store, gap)
  {
    hide *;
    UntiedPage(p, rest, store, range, gap, limit);
    RecordsOnPage(p, rest[..limit], store, range, gap, limit);
    UncutPage(p, rest, store, range, gap, limit);
  }

  /** A page that loses nothing, and its successor: what is left to list is what is left
      to fetch. */
  lemma CompleteOn(pages: seq<Page>, store: Store, range: nat, gap: Gap, limit: nat, rest: seq<Entry>)
    returns (later: seq<Page>)
    requires IsRun(pages, store, range, gap, limit) && Lists(rest, store, pages[0].end - gap)
    requires |rest| >= limit && rest[limit - 1].ts >= pages[0].end - range
    requires pages[0].next.Some? && pages[|pages| - 1].next.None?
    requires |rest| == limit || rest[limit].ts < rest[limit - 1].ts - gap
    ensures AllRecords(rest[..limit])
    ensures |later| == |pages| - 1 > 0 && later[0].end == rest[limit - 1].ts - 1
    ensures IsRun(later, store, range, gap, limit) && later[|later| - 1].next.None?
    ensures Lists(rest[limit..], store, later[0].end - gap)
    ensures Complete(pages, store, range, gap) <==> Complete(later, store, range, gap)
  {
    FirstPage(pages, store, range, gap, limit);
    hide *;
    HasNext(pages, store, range, gap, limit);
    WholePage(pages[0], rest, store, range, gap, limit);
    later := RunTail(pages, store, range, gap, limit);
    WholeThenRest(pages, later, store, range, gap, limit);
  }

  lemma BelowPage(p: Page, store: Store, range: nat, gap: Gap, limit: nat, e: Entry)
    requires IsPage(p, store, range, gap, limit) && |p.entries| > 0 && e.ts < Oldest(p)
    ensures e !in p.entries
  {
  }

  lemma Listed(rest: seq<Entry>, store: Store, top: int, i: nat)
    requires Lists(rest, store, top) && i < |rest|
    ensures rest[i] in store && rest[i].ts <= top
  {
    assert rest[i] in rest;
  }

  lemma HasNext(pages: seq<Page>, store: Store, range: nat, gap: Gap, limit: nat)
    requires IsRun(pages, store, range, gap, limit) && pages[|pages| - 1].next.None? && pages[0].next.Some?
    ensures |pages| > 1 && |pages[0].entries| > 0 && pages[1].end == Oldest(pages[0]) - 1
  {
    hide IsPage;
    StepDown(pages, store, range, gap, limit, 0);
  }

  lemma LastFull(p: Page, rest: seq<Entry>, store: Store, range: nat, gap: Gap, limit: nat)
    requires limit > 0 && IsPage(p, store, range, gap, limit) && Lists(rest, store, p.end - gap)
    requires |rest| >= limit && SameMembers(p.entries, rest[..limit])
    ensures HoldsWindow(p, store, range, gap) <==>
      |rest| == limit || rest[limit].ts < p.end - range
  {
    PrefixDistinct(rest, limit);
    var window := Window(store, p.end - range, p.end - gap);
    forall e | e in p.entries ensures e in window {
      InWindow(p, store, range, gap, limit, e);
    }
    hide Newest;
    if |rest| > limit && rest[limit].ts >= p.end - range {
      assert rest[limit..][0] == rest[limit] && rest[limit] in rest;
      assert rest[limit] in window && rest[limit] !in p.entries;
    } else {
      forall e | e in window ensures e in p.entries {
        assert e in rest;
        if |rest| > limit {
          WithoutTail(rest, limit, e);
        } else {
          assert rest[..limit] == rest;
        }
      }
    }
  }

  lemma EndsBetween(pages: seq<Page>, store: Store, range: nat, gap: Gap, limit: nat, k: nat)
    requires IsRun(pages, store, range, gap, limit) && k < |pages|
    ensures pages[|pages| - 1].end <= pages[k].end <= pages[0].end
  {
    hide IsPage;
    if k > 0 {
      EndsDescend(pages, store, range, gap, limit, 0, k);
      StepDown(pages, store, range, gap, limit, 0);
    }
    if k < |pages| - 1 {
      EndsDescend(pages, store, range, gap, limit, k, |pages| - 1);
      StepDown(pages, store, range, gap, limit, k);
    }
  }

  ghost predicate Spaced(store: Store, gap: Gap) {
    forall e, d :: e in store && d in store && e.ts - gap <= d.ts <= e.ts ==> e == d
  }

  lemma {:induction false} ListOf(s: set<Entry>) returns (es: seq<Entry>)
    ensures NoDuplicates(es) && forall e :: e in es <==> e in s
    decreases |s|
  {
    es := [];
    if s != {} {
      var x :| x in s;
      var more := ListOf(s - {x});
      es := more + [x];
    }
  }

  lemma KeepsDistinct(es: seq<Entry>, sorted: seq<Entry>)
    requires NoDuplicates(es) && multiset(sorted) == multiset(es)
    ensures NoDuplicates(sorted) && forall e :: e in sorted <==> e in es
  {
    forall e ensures e in sorted <==> e in es {
      assert e in multiset(sorted) <==> e in multiset(es);
    }
    forall i, j | 0 <= i < j < |sorted| ensures sorted[i] != sorted[j] {
      if sorted[i] == sorted[j] {
        Twice(sorted, i, j);
        Once(es, sorted[i]);
      }
    }
  }

  /** Every store has such a listing. */
  lemma SomeListing(store: Store, end: int) returns (rest: seq<Entry>)
    ensures Lists(rest, store, end)
  {
    var es := ListOf(set e | e in store && e.ts <= end);
    SortNewestFirst(es);
    KeepsDistinct(es, SortNewest(es));
    rest := SortNewest(es);
  }

  lemma {:induction false} SpacedIsClean(rest: seq<Entry>, end: int, range: nat, gap: Gap, limit: nat)
    requires limit > 0 && AllRecords(rest)
    requires forall i, j :: 0 <= i < j < |rest| ==> rest[j].ts < rest[i].ts - gap
    ensures Clean(rest, end, range, gap, limit)
    decreases |rest|
  {
    hide Clean;
    if |rest| >= limit {
      SpacedIsClean(rest[limit..], rest[limit - 1].ts - 1, range, gap, limit);
    }
    CleanUnfolds(rest, end, range, gap, limit);
  }

  lemma SpacedListing(rest: seq<Entry>, store: Store, top: int, gap: Gap)
    requires Lists(rest, store, top) && Spaced(store, gap) && forall e :: e in store ==> e.line.Record?
    ensures AllRecords(rest)
    ensures forall i, j :: 0 <= i < j < |rest| ==> rest[j].ts < rest[i].ts - gap
  {
    assert forall i :: 0 <= i < |rest| ==> rest[i] in rest && rest[i] in store;
  }

  /** The documented use: timestamps further apart than the gap, so merely distinct at a
      store that includes the end, and readable lines lose nothing. */
  lemma SpacedTimesComplete(pages: seq<Page>, store: Store, range: nat, gap: Gap, limit: nat)
    requires IsRun(pages, store, range, gap, limit) && pages[|pages| - 1].next.None?
    requires Spaced(store, gap) && forall e :: e in store ==> e.line.Record?
    ensures Complete(pages, store, range, gap)
  {
    FirstPage(pages, store, range, gap, limit);
    hide *;
    var rest := SomeListing(store, pages[0].end - gap);
    SpacedListing(rest, store, pages[0].end - gap, gap);
    SpacedIsClean(rest, pages[0].end, range, gap, limit);
    CompleteExactlyWhen(pages, store, range, gap, limit, rest);
  }

  /** At a store that leaves out the end, an entry one below a page's oldest is on no
      page: two entries, pages of one. */
  lemma OneBelowLost() returns (pages: seq<Page>, store: Store)
    ensures IsRun(pages, store, 5, 1, 1) && pages[|pages| - 1].next.None?
    ensures Spaced(store, 0) && (forall e :: e in store ==> e.line.Record?)
    ensures !Complete(pages, store, 5, 1)
  {
    var newer, older := Entry(11, Record(0)), Entry(10, Record(1));
    store := {newer, older};
    var first, second := Page(12, [newer], Some(10)), Page(10, [], None);
    pages := [first, second];
    OneEntryPage(first, store, 5, 1);
    EmptyPage(10, store, 5, 1);
    hide *;
    TwoPages(pages, store, 5, 1, 1, older);
    MissedOne(pages, store, 5, 1, older);
  }

  lemma TwoPages(pages: seq<Page>, store: Store, range: nat, gap: Gap, limit: nat, e: Entry)
    requires |pages| == 2 && limit > 0 && forall e :: e in store ==> e.ts > 1
    requires IsPage(pages[0], store, range, gap, limit) && IsPage(pages[1], store, range, gap, limit)
    requires pages[0].next == Some(pages[1].end) && e !in pages[0].entries && e !in pages[1].entries
    ensures IsRun(pages, store, range, gap, limit) && e !in Fetched(pages)
  {
    hide IsPage;
  }

  lemma OneEntryPage(p: Page, store: Store, range: nat, gap: Gap)
    requires |p.entries| == 1 && p.entries[0] in store && p.entries[0].line.Record?
    requires p.end - range <= p.entries[0].ts <= p.end - gap && p.next == Some(p.entries[0].ts - 1)
    requires forall d :: d in store ==> d.ts <= p.entries[0].ts
    ensures IsPage(p, store, range, gap, 1)
  {
    OneRecord(p.entries);
    OneIsNewest(p.entries, Window(store, p.end - range, p.end - gap));
    hide Newest;
    hide Records;
    hide Window;
  }

  lemma OneIsNewest(es: seq<Entry>, window: Store)
    requires |es| == 1 && es[0] in window && forall d :: d in window ==> d.ts <= es[0].ts
    ensures Newest(es, window, 1)
  {
  }

  lemma OneRecord(es: seq<Entry>)
    requires |es| == 1 && es[0].line.Record?
    ensures |Records(es)| == 1
  {
  }

  lemma EmptyPage(end: int, store: Store, range: nat, gap: Gap)
    requires forall d :: d in store ==> d.ts > end - gap
    ensures IsPage(Page(end, [], None), store, range, gap, 1)
  {
  }

  // ---------------------------------------------------------------------
  // The pages laid end to end
  // ---------------------------------------------------------------------

  function Listing(pages: seq<Page>): seq<Entry> {
    if pages == [] then [] else Listing(pages[..|pages| - 1]) + pages[|pages| - 1].entries
  }

  lemma JoinOlder(a: seq<Entry>, b: seq<Entry>)
    requires NewestFirst(a) && NoDuplicates(a) && NewestFirst(b) && NoDuplicates(b)
    requires forall e, d :: e in a && d in b ==> d.ts < e.ts
    ensures NewestFirst(a + b) && NoDuplicates(a + b)
  {
    var c := a + b;
    forall i, j | 0 <= i < j < |c| ensures c[i].ts >= c[j].ts && c[i] != c[j] {
      if i < |a| <= j {
        assert c[i] in a && c[j] in b;
      }
    }
  }

  lemma OlderThanListing(pages: seq<Page>, store: Store, range: nat, gap: Gap, limit: nat)
    requires IsRun(pages, store, range, gap, limit)
    ensures forall e, d :: e in Fetched(pages[..|pages| - 1]) && d in pages[|pages| - 1].entries ==> d.ts < e.ts
  {
    FirstPage(pages, store, range, gap, limit);
    hide *;
    var init := pages[..|pages| - 1];
    forall e, d | e in Fetched(init) && d in pages[|pages| - 1].entries ensures d.ts < e.ts {
      var i := FetchedFrom(init, e);
      PagesStrictlyOlder(pages, store, range, gap, limit, i, |init|, e, d);
    }
  }

  lemma FetchedLast(pages: seq<Page>)
    requires |pages| > 0
    ensures Fetched(pages) == Fetched(pages[..|pages| - 1]) + SetOf(pages[|pages| - 1].entries)
    ensures |pages| == 1 ==> Fetched(pages[..|pages| - 1]) == {}
  {
    var init, n := pages[..|pages| - 1], |pages| - 1;
    forall e | e in Fetched(pages) ensures e in Fetched(init) + SetOf(pages[n].entries) {
      var k :| 0 <= k < |pages| && e in pages[k].entries;
      assert k < n ==> e in init[k].entries;
    }
  }

  lemma ListingLast(pages: seq<Page>)
    requires |pages| > 0
    ensures Listing(pages) == Listing(pages[..|pages| - 1]) + pages[|pages| - 1].entries
    ensures |pages| == 1 ==> Listing(pages) == pages[|pages| - 1].entries
  {
  }

  lemma {:induction false} ListingNewestFirst(pages: seq<Page>, store: Store, range: nat, gap: Gap, limit: nat)
    requires IsRun(pages, store, range, gap, limit)
    ensures NewestFirst(Listing(pages)) && NoDuplicates(Listing(pages))
    ensures forall e :: e in Listing(pages) <==> e in Fetched(pages)
  {
    FirstPage(pages, store, range, gap, limit);
    hide *;
    var n := |pages| - 1;
    var init, last := pages[..n], pages[n];
    PageOf(pages, store, range, gap, limit, n);
    PageNewestFirst(last, store, range, gap, limit);
    FetchedLast(pages);
    ListingLast(pages);
    if n > 0 {
      RunInit(pages, store, range, gap, limit);
      ListingNewestFirst(init, store, range, gap, limit);
      OlderThanListing(pages, store, range, gap, limit);
      JoinOlder(Listing(init), last.entries);
    }
    InSetOf(last.entries);
  }

  lemma RunInit(pages: seq<Page>, store: Store, range: nat, gap: Gap, limit: nat)
    requires IsRun(pages, store, range, gap, limit) && |pages| > 1
    ensures IsRun(pages[..|pages| - 1], store, range, gap, limit)
  {
    hide IsPage;
  }

  lemma PageNewestFirst(p: Page, store: Store, range: nat, gap: Gap, limit: nat)
    requires IsPage(p, store, range, gap, limit)
    ensures NewestFirst(p.entries) && NoDuplicates(p.entries)
  {
    hide NoDuplicates;
    hide NewestFirst;
  }

  lemma InSetOf(es: seq<Entry>)
    ensures forall e :: e in SetOf(es) <==> e in es
  {
  }

  lemma TailOf(a: seq<Entry>)
    requires a != [] && NewestFirst(a) && NoDuplicates(a)
    ensures NewestFirst(a[1..]) && NoDuplicates(a[1..])
    ensures forall e :: e in a[1..] <==> e in a && e != a[0]
    ensures forall e :: e in a ==> e.ts <= a[0].ts
  {
    forall e | e in a && e != a[0] ensures e in a[1..] {
      var i :| 0 <= i < |a| && a[i] == e;
      assert a[1..][i - 1] == e;
    }
  }

  lemma {:induction false} NewestFirstUnique(a: seq<Entry>, b: seq<Entry>)
    requires NewestFirst(a) && NoDuplicates(a) && NewestFirst(b) && NoDuplicates(b)
    requires forall e :: e in a <==> e in b
    requires forall e, d :: e in a && d in a && e.ts == d.ts ==> e == d
    ensures a == b
  {
    hide NewestFirst;
    hide NoDuplicates;
    if a == [] {
      assert forall i :: 0 <= i < |b| ==> b[i] in b;
    } else {
      assert a[0] in a && a[0] in b && b != [];
      assert b[0] in b;
      TailOf(a);
      TailOf(b);
      assert a[0] == b[0];
      NewestFirstUnique(a[1..], b[1..]);
      assert a == [a[0]] + a[1..] && b == [b[0]] + b[1..];
    }
  }

  lemma SpacedWindow(store: Store, gap: Gap, start: int, end: int)
    requires Spaced(store, gap)
    ensures forall e, d :: e in Window(store, start, end) && d in Window(store, start, end) && e.ts == d.ts ==> e == d
  {
  }

  /** Laid end to end, the pages are the newest-first list of every matching entry,
      whatever list that is, down to the last page's window start. */
  lemma PagesListEverything(pages: seq<Page>, store: Store, range: nat, gap: Gap, limit: nat, all: seq<Entry>)
    requires IsRun(pages, store, range, gap, limit) && pages[|pages| - 1].next.None?
    requires Spaced(store, gap) && forall e :: e in store ==> e.line.Record?
    requires NewestFirst(all) && NoDuplicates(all)
    requires forall e :: e in all <==> e in Window(store, pages[|pages| - 1].end - range, pages[0].end - gap)
    ensures Listing(pages) == all
  {
    SpacedTimesComplete(pages, store, range, gap, limit);
    ListingNewestFirst(pages, store, range, gap, limit);
    FirstPage(pages, store, range, gap, limit);
    hide *;
    CompleteIs(pages, store, range, gap);
    SpacedWindow(store, gap, pages[|pages| - 1].end - range, pages[0].end - gap);
    NewestFirstUnique(all, Listing(pages));
  }

  /** A full page ends the paging, with older entries perhaps left behind, exactly
      when one of its lines is not JSON: rows are counted, not entries. */
  lemma {:induction false} FullPageStopsExactlyWhen(p: Page, store: Store, range: nat, gap: Gap, limit: nat)
    requires IsPage(p, store, range, gap, limit) && limit > 0 && |p.entries| == limit
    ensures p.next.None? <==> exists e :: e in p.entries && e.line.NotJson?
  {
    assert (forall e :: e in p.entries ==> e.line.Record?) <==> !(exists e :: e in p.entries && e.line.NotJson?) by {
      forall e | e in p.entries && !e.line.NotJson? ensures e.line.Record? {
        assert !e.line.Unreadable?;
      }
    }
  }
}
