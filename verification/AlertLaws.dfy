/** What alerting keeps over any run: intervals, one row per matching channel, and
    counters that agree with the history. */
module AlertLaws {
  import opened Bytes
  import opened AlertSpec

  // ---------------------------------------------------------------------
  // Counters
  // ---------------------------------------------------------------------

  /** Rows of a channel with a status, test alerts aside. */
  function Tally(history: seq<Row>, id: nat, s: Status): nat {
    if history == [] then 0
    else
      var last := history[|history| - 1];
      Tally(history[..|history| - 1], id, s) +
      (if last.channelId == id && last.status == s && last.alert.eventType != TEST then 1 else 0)
  }

  ghost predicate CountersAgree(d: Desk) {
    forall k :: 0 <= k < |d.channels| ==>
      Count(d.channels[k].totalSent) == Tally(d.history, d.channels[k].id, Sent) &&
      Count(d.channels[k].totalFailed) == Tally(d.history, d.channels[k].id, Failed)
  }

  ghost predicate DistinctIds(d: Desk) {
    forall i, j :: 0 <= i < j < |d.channels| ==> d.channels[i].id != d.channels[j].id
  }

  lemma TallyAppend(history: seq<Row>, row: Row, id: nat, s: Status)
    ensures Tally(history + [row], id, s) == Tally(history, id, s) +
      (if row.channelId == id && row.status == s && row.alert.eventType != TEST then 1 else 0)
  {
    assert (history + [row])[..|history|] == history;
  }

  /** Handling one channel keeps the counters in agreement exactly when it makes no
      request or the alert is not typed as a test. */
  lemma OneKeepsCounters(d: Desk, k: nat, a: Alert, r: Reading)
    requires k < |d.channels| && DistinctIds(d) && CountersAgree(d)
    ensures DistinctIds(HandleOne(d, k, a, r).desk)
    ensures CountersAgree(HandleOne(d, k, a, r).desk) <==> !Dispatches(d.channels[k], a, r) || a.eventType != TEST
  {
    var ch := d.channels[k];
    OneShape(d, k, a, r);
    if Matches(ch, a) && !Stuck(ch) {
      OneTallies(d, k, Row(ch.id, StatusOf(ch, r), a));
      OneCounts(ch, a, r);
    } else {
      NotDispatched(ch, a, r);
    }
    hide HandleOne;
    hide Handled;
    hide Dispatches;
    hide StatusOf;
    hide Tally;
    hide Matches;
    hide Stuck;
    hide Count;
    var after := HandleOne(d, k, a, r).desk;
    assert |after.channels| == |d.channels|;
    assert forall i :: 0 <= i < |d.channels| && i != k ==> after.channels[i] == d.channels[i];
    assert Count(ch.totalSent) == Tally(d.history, ch.id, Sent);
    assert Count(ch.totalFailed) == Tally(d.history, ch.id, Failed);
    assert after.channels[k].id == ch.id;
  }

  lemma NotDispatched(ch: Channel, a: Alert, r: Reading)
    requires !Matches(ch, a) || Stuck(ch)
    ensures !Dispatches(ch, a, r)
  {
  }

  lemma OneShape(d: Desk, k: nat, a: Alert, r: Reading)
    requires k < |d.channels|
    ensures var ch, after := d.channels[k], HandleOne(d, k, a, r).desk;
      if Matches(ch, a) && !Stuck(ch) then
        after.channels == d.channels[k := Handled(ch, a, r)] && Handled(ch, a, r).id == ch.id &&
        after.history == d.history + [Row(ch.id, StatusOf(ch, r), a)]
      else after == d
  {
    hide Limited;
  }

  /** What a handled channel's totals go up by is what its row counts for. */
  lemma OneCounts(ch: Channel, a: Alert, r: Reading)
    requires Matches(ch, a) && !Stuck(ch)
    ensures Count(Handled(ch, a, r).totalSent) == Count(ch.totalSent) + if StatusOf(ch, r) == Sent then 1 else 0
    ensures Count(Handled(ch, a, r).totalFailed) == Count(ch.totalFailed) + if StatusOf(ch, r) == Failed then 1 else 0
    ensures Dispatches(ch, a, r) <==> StatusOf(ch, r) != RateLimited
  {
    hide Limited;
    hide Matches;
    hide Stuck;
  }

  lemma OneTallies(d: Desk, k: nat, row: Row)
    requires k < |d.channels| && DistinctIds(d) && row.channelId == d.channels[k].id
    ensures forall i, s :: 0 <= i < |d.channels| ==>
      Tally(d.history + [row], d.channels[i].id, s) == Tally(d.history, d.channels[i].id, s) +
        if i == k && row.status == s && row.alert.eventType != TEST then 1 else 0
  {
    forall i, s | 0 <= i < |d.channels|
      ensures Tally(d.history + [row], d.channels[i].id, s) == Tally(d.history, d.channels[i].id, s) +
        if i == k && row.status == s && row.alert.eventType != TEST then 1 else 0
    {
      TallyAppend(d.history, row, d.channels[i].id, s);
    }
  }

  lemma FireStep(d: Desk, a: Alert, rs: seq<Reading>, n: nat)
    requires |rs| == |d.channels| && n <= |d.channels|
    ensures n == 0 ==> FireUpTo(d, a, rs, n) == Done(d)
    ensures n > 0 ==>
      var before := FireUpTo(d, a, rs, n - 1);
      FireUpTo(d, a, rs, n) == if before.Raised? then before else HandleOne(before.desk, n - 1, a, rs[n - 1])
  {
    hide HandleOne;
  }

  lemma {:induction false} FireKeepsCounters(d: Desk, a: Alert, rs: seq<Reading>, n: nat)
    requires |rs| == |d.channels| && n <= |d.channels|
    requires DistinctIds(d) && CountersAgree(d) && a.eventType != TEST
    ensures DistinctIds(FireUpTo(d, a, rs, n).desk) && CountersAgree(FireUpTo(d, a, rs, n).desk)
  {
    hide *;
    FireStep(d, a, rs, n);
    if n > 0 {
      FireKeepsCounters(d, a, rs, n - 1);
      var before := FireUpTo(d, a, rs, n - 1);
      if before.Done? {
        OneKeepsCounters(before.desk, n - 1, a, rs[n - 1]);
      }
    }
  }

  /** A test alert touches no total, no interval and no tally. */
  lemma {:induction false} TestKeepsCounters(d: Desk, id: nat, success: bool)
    ensures var after := TestChannel(d, id, success);
      after.channels == d.channels && after.attempts == d.attempts &&
      (forall i, s :: Tally(after.history, i, s) == Tally(d.history, i, s)) &&
      (CountersAgree(d) ==> CountersAgree(after))
  {
    var after := TestChannel(d, id, success);
    forall i, s ensures Tally(after.history, i, s) == Tally(d.history, i, s) {
      TallyAppend(d.history, TestRow(id, success), i, s);
    }
  }

  // ---------------------------------------------------------------------
  // When a call completes
  // ---------------------------------------------------------------------

  lemma {:induction false} CompletesUpTo(d: Desk, a: Alert, rs: seq<Reading>, n: nat)
    requires |rs| == |d.channels| && n <= |d.channels|
    ensures FireUpTo(d, a, rs, n).Done? <==> forall k :: 0 <= k < n ==> !Raises(d.channels[k], a)
  {
    if n > 0 {
      CompletesUpTo(d, a, rs, n - 1);
    }
  }

  ghost predicate NoneRaises(d: Desk, a: Alert) {
    forall k :: 0 <= k < |d.channels| ==> !Raises(d.channels[k], a)
  }

  /** A call completes exactly when no enabled matching channel that was sent to before
      has an interval out of range, or a nonzero one and a stamp without a zone. */
  lemma CompletesExactlyWhen(d: Desk, a: Alert, rs: seq<Reading>)
    requires |rs| == |d.channels|
    ensures Fire(d, a, rs).Done? <==> NoneRaises(d, a)
  {
    CompletesUpTo(d, a, rs, |rs|);
  }

  /** Otherwise the channels before the first such one are handled, and no other. */
  lemma {:induction false} StopsAtFirst(d: Desk, a: Alert, rs: seq<Reading>, k: nat, n: nat)
    requires |rs| == |d.channels| && k < n <= |d.channels|
    requires Raises(d.channels[k], a) && forall j :: 0 <= j < k ==> !Raises(d.channels[j], a)
    ensures FireUpTo(d, a, rs, k).Done? && FireUpTo(d, a, rs, n) == Raised(FireUpTo(d, a, rs, k).desk)
    decreases n
  {
    CompletesUpTo(d, a, rs, k);
    if k < n - 1 {
      StopsAtFirst(d, a, rs, k, n - 1);
    }
  }

  // ---------------------------------------------------------------------
  // One row and one result per matching channel
  // ---------------------------------------------------------------------

  function RowResults(rows: seq<Row>): (r: seq<Result>)
    ensures |r| == |rows| && forall i :: 0 <= i < |rows| ==> r[i] == Result(rows[i].channelId, rows[i].status)
  {
    seq(|rows|, i requires 0 <= i < |rows| => Result(rows[i].channelId, rows[i].status))
  }

  lemma {:induction false} FireReports(d: Desk, a: Alert, rs: seq<Reading>, n: nat)
    requires |rs| == |d.channels| && n <= |d.channels| && FireUpTo(d, a, rs, n).Done?
    ensures var after := FireUpTo(d, a, rs, n).desk;
      d.history <= after.history &&
      RowResults(after.history[|d.history|..]) == ResultsUpTo(d.channels, a, rs, n) &&
      forall i :: |d.history| <= i < |after.history| ==> after.history[i].alert == a
  {
    FireStep(d, a, rs, n);
    hide FireUpTo;
    hide Matches;
    hide StatusOf;
    if n > 0 {
      FireReports(d, a, rs, n - 1);
      var mid, ch := FireUpTo(d, a, rs, n - 1).desk, d.channels[n - 1];
      OneRows(mid, n - 1, a, rs[n - 1]);
      hide HandleOne;
      var after, row := FireUpTo(d, a, rs, n).desk, Row(ch.id, StatusOf(ch, rs[n - 1]), a);
      if Matches(ch, a) {
        assert after.history[|d.history|..] == mid.history[|d.history|..] + [row];
        ResultsSnoc(mid.history[|d.history|..], row);
      } else {
        assert after.history == mid.history;
      }
    } else {
      assert d.history[|d.history|..] == [];
    }
  }

  lemma ResultsSnoc(rows: seq<Row>, row: Row)
    ensures RowResults(rows + [row]) == RowResults(rows) + [Result(row.channelId, row.status)]
  {
  }

  /** What a completed call returns: one result for each matching channel, none for any other. */
  lemma {:induction false} ResultsExactlyMatching(channels: seq<Channel>, a: Alert, rs: seq<Reading>, n: nat, k: nat)
    requires |rs| == |channels| && k < n <= |channels|
    requires forall i, j :: 0 <= i < j < |channels| ==> channels[i].id != channels[j].id
    ensures var r := ResultsUpTo(channels, a, rs, n);
      (Matches(channels[k], a) ==>
         multiset(r)[Result(channels[k].id, StatusOf(channels[k], rs[k]))] == 1) &&
      (forall x :: x in r && x.channelId == channels[k].id ==>
         Matches(channels[k], a) && x == Result(channels[k].id, StatusOf(channels[k], rs[k])))
  {
    var last := channels[n - 1];
    if n - 1 > k {
      ResultsExactlyMatching(channels, a, rs, n - 1, k);
    } else {
      OthersResults(channels, a, rs, k, k);
    }
  }

  lemma {:induction false} OthersResults(channels: seq<Channel>, a: Alert, rs: seq<Reading>, n: nat, k: nat)
    requires |rs| == |channels| && n <= k < |channels|
    requires forall i, j :: 0 <= i < j < |channels| ==> channels[i].id != channels[j].id
    ensures forall x :: x in ResultsUpTo(channels, a, rs, n) ==> x.channelId != channels[k].id
  {
    if n > 0 {
      OthersResults(channels, a, rs, n - 1, k);
    }
  }

  // ---------------------------------------------------------------------
  // Who is sent to
  // ---------------------------------------------------------------------

  /** One channel of a call that completes, over its own fields: of the call's new rows and
      attempts those that are the channel's, and the channel afterwards. */
  ghost predicate AsDue(ch: Channel, a: Alert, r: Reading, after: Channel, rows: seq<Row>, made: seq<Attempt>) {
    var wanted := ch.enabled && (ch.eventTypes == [] || a.eventType in ch.eventTypes) &&
      (ch.clusterIds == [] || a.clusterId.None? || a.clusterId.value == 0 || a.clusterId.value in ch.clusterIds);
    var due := ch.lastFired.None? || ch.minInterval == 0 ||
      r.checkedAt - ch.lastFired.value.at >= ch.minInterval as real;
    var row := Row(ch.id, if !due then RateLimited else if r.success then Sent else Failed, a);
    (forall x :: x in rows && x.channelId == ch.id <==> wanted && x == row) &&
    (forall x :: x in made && x.channelId == ch.id <==>
       wanted && due && x == Attempt(ch.id, r.checkedAt, r.recordedAt)) &&
    if !wanted || !due then after == ch
    else if r.success then
      after == ch.(lastFired := Some(Aware(r.recordedAt)), lastError := None,
                   totalSent := Some((if ch.totalSent.Some? then ch.totalSent.value else 0) + 1))
    else
      after == ch.(lastFired := Some(Aware(r.recordedAt)), lastError := Some(r.error),
                   totalFailed := Some((if ch.totalFailed.Some? then ch.totalFailed.value else 0) + 1))
  }

  /** The new attempts, channel by channel. */
  lemma {:induction false} FireAttempts(d: Desk, a: Alert, rs: seq<Reading>, n: nat)
    requires |rs| == |d.channels| && n <= |d.channels| && FireUpTo(d, a, rs, n).Done?
    ensures var after := FireUpTo(d, a, rs, n).desk;
      d.attempts <= after.attempts &&
      forall x :: x in after.attempts[|d.attempts|..] <==>
        exists k :: 0 <= k < n && Dispatches(d.channels[k], a, rs[k]) &&
          x == Attempt(d.channels[k].id, rs[k].checkedAt, rs[k].recordedAt)
  {
    hide Dispatches;
    FireStep(d, a, rs, n);
    if n > 0 {
      FireAttempts(d, a, rs, n - 1);
      var mid, ch := FireUpTo(d, a, rs, n - 1).desk, d.channels[n - 1];
      OneAttempts(mid, n - 1, a, rs[n - 1]);
      hide FireUpTo;
      hide HandleOne;
      var after := FireUpTo(d, a, rs, n).desk;
      var old', new' := mid.attempts[|d.attempts|..], after.attempts[|d.attempts|..];
      var one := Attempt(ch.id, rs[n - 1].checkedAt, rs[n - 1].recordedAt);
      assert new' == old' + if Dispatches(ch, a, rs[n - 1]) then [one] else [];
    } else {
      assert d.attempts[|d.attempts|..] == [];
    }
  }

  lemma OneAttempts(d: Desk, k: nat, a: Alert, r: Reading)
    requires k < |d.channels| && HandleOne(d, k, a, r).Done?
    ensures HandleOne(d, k, a, r).desk.attempts ==
      d.attempts + if Dispatches(d.channels[k], a, r)
                   then [Attempt(d.channels[k].id, r.checkedAt, r.recordedAt)] else []
  {
    hide Limited;
    hide Stuck;
    hide Matches;
  }

  /** The new rows, channel by channel. */
  lemma {:induction false} FireRows(d: Desk, a: Alert, rs: seq<Reading>, n: nat)
    requires |rs| == |d.channels| && n <= |d.channels| && FireUpTo(d, a, rs, n).Done?
    ensures var after := FireUpTo(d, a, rs, n).desk;
      d.history <= after.history &&
      forall x :: x in after.history[|d.history|..] <==>
        exists k :: 0 <= k < n && Matches(d.channels[k], a) &&
          x == Row(d.channels[k].id, StatusOf(d.channels[k], rs[k]), a)
  {
    hide Matches;
    hide StatusOf;
    FireStep(d, a, rs, n);
    if n > 0 {
      FireRows(d, a, rs, n - 1);
      var mid, ch := FireUpTo(d, a, rs, n - 1).desk, d.channels[n - 1];
      OneRows(mid, n - 1, a, rs[n - 1]);
      hide FireUpTo;
      hide HandleOne;
      var after := FireUpTo(d, a, rs, n).desk;
      var old', new' := mid.history[|d.history|..], after.history[|d.history|..];
      assert new' == old' + if Matches(ch, a) then [Row(ch.id, StatusOf(ch, rs[n - 1]), a)] else [];
    } else {
      assert d.history[|d.history|..] == [];
    }
  }

  lemma OneRows(d: Desk, k: nat, a: Alert, r: Reading)
    requires k < |d.channels| && HandleOne(d, k, a, r).Done?
    ensures HandleOne(d, k, a, r).desk.history ==
      d.history + if Matches(d.channels[k], a) then [Row(d.channels[k].id, StatusOf(d.channels[k], r), a)] else []
  {
    hide Stuck;
    hide Matches;
    hide StatusOf;
    hide Dispatches;
  }

  /** A call that completes sends to a channel exactly when it is enabled, its filters let
      the alert through, and it was never fired, has no interval or the interval is over;
      it records what came of it, and rate limiting exactly where it does not send. */
  lemma SentExactlyWhenDue(d: Desk, a: Alert, rs: seq<Reading>, k: nat)
    requires |rs| == |d.channels| && k < |d.channels| && DistinctIds(d) && Fire(d, a, rs).Done?
    ensures var after := Fire(d, a, rs).desk;
      |after.channels| == |d.channels| && d.history <= after.history && d.attempts <= after.attempts &&
      AsDue(d.channels[k], a, rs[k], after.channels[k],
            after.history[|d.history|..], after.attempts[|d.attempts|..])
  {
    FireRows(d, a, rs, |rs|);
    FireAttempts(d, a, rs, |rs|);
    ChannelAfter(d, a, rs, |rs|, k);
    CompletesExactlyWhen(d, a, rs);
    hide FireUpTo;
    assert !Raises(d.channels[k], a);
    var after, ch, r := Fire(d, a, rs).desk, d.channels[k], rs[k];
    var rows, made := after.history[|d.history|..], after.attempts[|d.attempts|..];
    forall x ensures x in rows && x.channelId == ch.id <==> Matches(ch, a) && x == Row(ch.id, StatusOf(ch, r), a) {
    }
    forall x ensures x in made && x.channelId == ch.id <==>
      Dispatches(ch, a, r) && x == Attempt(ch.id, r.checkedAt, r.recordedAt)
    {
    }
    hide *;
    DueIs(ch, a, r, after.channels[k], rows, made);
  }

  ghost predicate EachAsDue(d: Desk, a: Alert, rs: seq<Reading>, after: Desk)
    requires |rs| == |d.channels|
  {
    |after.channels| == |d.channels| && d.history <= after.history && d.attempts <= after.attempts &&
    forall k :: 0 <= k < |d.channels| ==>
      AsDue(d.channels[k], a, rs[k], after.channels[k],
            after.history[|d.history|..], after.attempts[|d.attempts|..])
  }

  lemma EachSentExactlyWhenDue(d: Desk, a: Alert, rs: seq<Reading>)
    requires |rs| == |d.channels| && Fire(d, a, rs).Done?
    ensures DistinctIds(d) ==> EachAsDue(d, a, rs, Fire(d, a, rs).desk)
  {
    FireRows(d, a, rs, |rs|);
    FireAttempts(d, a, rs, |rs|);
    hide FireUpTo;
    hide AsDue;
    if DistinctIds(d) {
      forall k | 0 <= k < |d.channels|
        ensures var after := Fire(d, a, rs).desk;
          AsDue(d.channels[k], a, rs[k], after.channels[k],
                after.history[|d.history|..], after.attempts[|d.attempts|..])
      {
        SentExactlyWhenDue(d, a, rs, k);
      }
    }
  }

  lemma DueIs(ch: Channel, a: Alert, r: Reading, after: Channel, rows: seq<Row>, made: seq<Attempt>)
    requires !Raises(ch, a) && after == Handled(ch, a, r)
    requires forall x ::
      x in rows && x.channelId == ch.id <==> Matches(ch, a) && x == Row(ch.id, StatusOf(ch, r), a)
    requires forall x ::
      x in made && x.channelId == ch.id <==>
      Dispatches(ch, a, r) && x == Attempt(ch.id, r.checkedAt, r.recordedAt)
    ensures AsDue(ch, a, r, after, rows, made)
  {
  }

  /** What raises, over the fields: a channel that is enabled and lets the alert through,
      with an interval and a stamp, where the stamp has no zone or the interval is out of
      range. */
  lemma RaisesExactlyWhen(ch: Channel, a: Alert)
    ensures Raises(ch, a) <==>
      ch.enabled && (ch.eventTypes == [] || a.eventType in ch.eventTypes) &&
      (ch.clusterIds == [] || a.clusterId.None? || a.clusterId.value == 0 || a.clusterId.value in ch.clusterIds) &&
      ch.lastFired.Some? && ch.minInterval != 0 &&
      (ch.lastFired.value.Naive? || ch.minInterval < -86_399_999_913_600 || ch.minInterval > 86_399_999_999_999)
  {
  }

  function RowsFor(history: seq<Row>, id: nat): nat {
    if history == [] then 0
    else RowsFor(history[..|history| - 1], id) + (if history[|history| - 1].channelId == id then 1 else 0)
  }

  lemma RowsAppend(history: seq<Row>, row: Row, id: nat)
    ensures RowsFor(history + [row], id) == RowsFor(history, id) + if row.channelId == id then 1 else 0
  {
    assert (history + [row])[..|history|] == history;
  }

  /** Each of the first `n` channels has a new row if it matches, and no other has. */
  ghost predicate RowsEach(d: Desk, a: Alert, after: Desk, n: nat) {
    forall k :: 0 <= k < |d.channels| ==>
      RowsFor(after.history, d.channels[k].id) ==
        RowsFor(d.history, d.channels[k].id) + if k < n && Matches(d.channels[k], a) then 1 else 0
  }

  lemma {:induction false} RowsUpTo(d: Desk, a: Alert, rs: seq<Reading>, n: nat)
    requires |rs| == |d.channels| && n <= |d.channels| && DistinctIds(d) && FireUpTo(d, a, rs, n).Done?
    ensures RowsEach(d, a, FireUpTo(d, a, rs, n).desk, n)
  {
    FireStep(d, a, rs, n);
    hide FireUpTo;
    hide HandleOne;
    if n > 0 {
      RowsUpTo(d, a, rs, n - 1);
      RowsOne(d, a, FireUpTo(d, a, rs, n - 1).desk, n - 1, rs[n - 1]);
    }
  }

  lemma RowsOne(d: Desk, a: Alert, mid: Desk, n: nat, r: Reading)
    requires n < |d.channels| == |mid.channels| && mid.channels[n] == d.channels[n] && DistinctIds(d)
    requires RowsEach(d, a, mid, n) && HandleOne(mid, n, a, r).Done?
    ensures RowsEach(d, a, HandleOne(mid, n, a, r).desk, n + 1)
  {
    var ch, after := d.channels[n], HandleOne(mid, n, a, r).desk;
    var row := Row(ch.id, StatusOf(ch, r), a);
    hide Matches;
    hide StatusOf;
    hide Handled;
    hide Dispatches;
    forall k | 0 <= k < |d.channels|
      ensures RowsFor(after.history, d.channels[k].id) ==
        RowsFor(mid.history, d.channels[k].id) + if k == n && Matches(ch, a) then 1 else 0
    {
      RowsAppend(mid.history, row, d.channels[k].id);
    }
  }

  /** Exactly one new history row for each enabled matching channel, and none for any
      other: this holds exactly when the call completes. */
  lemma OneRowEachExactlyWhen(d: Desk, a: Alert, rs: seq<Reading>)
    requires |rs| == |d.channels| && DistinctIds(d)
    ensures RowsEach(d, a, Fire(d, a, rs).desk, |rs|) <==> NoneRaises(d, a)
  {
    CompletesExactlyWhen(d, a, rs);
    if NoneRaises(d, a) {
      RowsUpTo(d, a, rs, |rs|);
    } else {
      var k := FirstRaising(d, a, 0);
      StopsAtFirst(d, a, rs, k, |rs|);
      RowsUpTo(d, a, rs, k);
    }
  }

  lemma {:induction false} FirstRaising(d: Desk, a: Alert, from: nat) returns (k: nat)
    requires !NoneRaises(d, a) && from < |d.channels|
    requires forall j :: 0 <= j < from ==> !Raises(d.channels[j], a)
    ensures k < |d.channels| && Raises(d.channels[k], a)
    ensures forall j :: 0 <= j < k ==> !Raises(d.channels[j], a)
    decreases |d.channels| - from
  {
    if Raises(d.channels[from], a) {
      k := from;
    } else {
      k := FirstRaising(d, a, from + 1);
    }
  }

  // ---------------------------------------------------------------------
  // Intervals
  // ---------------------------------------------------------------------

  /** The clock within a call: checks and recordings in order, none before `start`. */
  ghost predicate ClockRuns(rs: seq<Reading>, start: real) {
    (forall i :: 0 <= i < |rs| ==> start <= rs[i].checkedAt <= rs[i].recordedAt) &&
    forall i, j :: 0 <= i < j < |rs| ==> rs[i].recordedAt <= rs[j].checkedAt
  }

  /** No attempt was recorded after `now`, and each channel remembers its latest. */
  ghost predicate Remembers(d: Desk, now: real) {
    (forall i :: 0 <= i < |d.attempts| ==> d.attempts[i].recorded <= now) &&
    forall k, i :: 0 <= k < |d.channels| && 0 <= i < |d.attempts| && d.attempts[i].channelId == d.channels[k].id ==>
      d.channels[k].lastFired.Some? && d.attempts[i].recorded <= d.channels[k].lastFired.value.at
  }

  /** Attempts `i` and `j` both went to channel `k`. */
  ghost predicate BothTo(d: Desk, k: nat, i: nat, j: nat)
    requires k < |d.channels| && i < |d.attempts| && j < |d.attempts|
  {
    d.attempts[i].channelId == d.channels[k].id && d.attempts[j].channelId == d.channels[k].id
  }

  /** A channel's attempts are never closer than its interval: each starts at least
      that long after any earlier one was recorded. */
  ghost predicate Spaced(d: Desk) {
    forall k, i, j :: 0 <= k < |d.channels| && 0 <= i < j < |d.attempts| && BothTo(d, k, i, j) ==>
      d.channels[k].minInterval == 0 ||
      d.attempts[j].started - d.attempts[i].recorded >= d.channels[k].minInterval as real
  }

  lemma {:induction false} OneKeepsSpacing(d: Desk, k: nat, a: Alert, r: Reading, now: real)
    requires k < |d.channels| && DistinctIds(d) && Remembers(d, now) && Spaced(d)
    requires now <= r.checkedAt <= r.recordedAt
    ensures DistinctIds(HandleOne(d, k, a, r).desk)
    ensures Remembers(HandleOne(d, k, a, r).desk, r.recordedAt) && Spaced(HandleOne(d, k, a, r).desk)
  {
    var after := HandleOne(d, k, a, r).desk;
    var ch := d.channels[k];
    if Dispatches(ch, a, r) {
      var n := |d.attempts|;
      assert after.attempts[n] == Attempt(ch.id, r.checkedAt, r.recordedAt);
      forall m, i, j | 0 <= m < |after.channels| && 0 <= i < j <= n && BothTo(after, m, i, j)
        ensures after.channels[m].minInterval == 0 ||
          after.attempts[j].started - after.attempts[i].recorded >= after.channels[m].minInterval as real
      {
        assert after.channels[m].id == d.channels[m].id;
        assert after.attempts[i] == d.attempts[i];
        if j == n {
          assert m == k;
        } else {
          assert BothTo(d, m, i, j);
        }
      }
    } else {
      assert forall m, i, j :: 0 <= m < |d.channels| && 0 <= i < j < |d.attempts| && BothTo(after, m, i, j) ==>
        BothTo(d, m, i, j);
    }
  }

  /** The time when the first `n` channels are done. */
  function ClockAfter(rs: seq<Reading>, start: real, n: nat): real
    requires n <= |rs|
  {
    if n == 0 then start else rs[n - 1].recordedAt
  }

  lemma ClockStep(rs: seq<Reading>, start: real, n: nat)
    requires ClockRuns(rs, start) && n <= |rs|
    ensures n == 0 ==> ClockAfter(rs, start, n) == start
    ensures n > 0 ==>
      ClockAfter(rs, start, n - 1) <= rs[n - 1].checkedAt <= rs[n - 1].recordedAt == ClockAfter(rs, start, n)
  {
  }

  lemma RemembersLater(d: Desk, now: real, later: real)
    requires Remembers(d, now) && now <= later
    ensures Remembers(d, later)
  {
  }

  lemma {:induction false} FireKeepsSpacing(d: Desk, a: Alert, rs: seq<Reading>, n: nat, start: real)
    requires |rs| == |d.channels| && n <= |d.channels| && ClockRuns(rs, start)
    requires DistinctIds(d) && Remembers(d, start) && Spaced(d)
    ensures var after := FireUpTo(d, a, rs, n).desk;
      DistinctIds(after) && Spaced(after) && Remembers(after, ClockAfter(rs, start, n))
  {
    hide *;
    FireStep(d, a, rs, n);
    ClockStep(rs, start, n);
    if n > 0 {
      FireKeepsSpacing(d, a, rs, n - 1, start);
      var before, now := FireUpTo(d, a, rs, n - 1), ClockAfter(rs, start, n - 1);
      if before.Done? {
        OneKeepsSpacing(before.desk, n - 1, a, rs[n - 1], now);
      } else {
        RemembersLater(before.desk, now, rs[n - 1].recordedAt);
      }
    }
  }

  // ---------------------------------------------------------------------
  // Whole runs
  // ---------------------------------------------------------------------

  /** Alerts, test alerts, operator edits (of anything but the interval) and commits. */
  datatype Action =
    | FireAlert(alert: Alert, readings: seq<Reading>)
    | SendTest(id: nat, success: bool)
    | Edit(k: nat, enabled: bool, eventTypes: seq<string>, clusterIds: seq<int>)
    | CommitAll

  /** A call that raises leaves what it had done in the session. */
  function Act(d: Desk, x: Action, keepsZone: bool): Desk {
    match x
    case FireAlert(a, rs) => if |rs| == |d.channels| then Fire(d, a, rs).desk else d
    case SendTest(id, success) => TestChannel(d, id, success)
    case Edit(k, enabled, eventTypes, clusterIds) =>
      if k < |d.channels|
      then
        var edited := d.channels[k].(enabled := enabled, eventTypes := eventTypes, clusterIds := clusterIds);
        d.(channels := d.channels[k := edited])
      else d
    case CommitAll => Commit(d, keepsZone)
  }

  function ActAll(d: Desk, xs: seq<Action>, keepsZone: bool): Desk {
    if xs == [] then d else Act(ActAll(d, xs[..|xs| - 1], keepsZone), xs[|xs| - 1], keepsZone)
  }

  /** What happens is taken in turn: an alert to every channel, a test, an edit of one
      channel in place, a commit. */
  lemma {:induction false} RunIs(d: Desk, xs: seq<Action>, x: Action, keepsZone: bool)
    ensures ActAll(d, [], keepsZone) == d
    ensures ActAll(d, xs + [x], keepsZone) == Act(ActAll(d, xs, keepsZone), x, keepsZone)
    ensures x.FireAlert? && |x.readings| == |d.channels| ==> Act(d, x, keepsZone) == Fire(d, x.alert, x.readings).desk
    ensures x.SendTest? ==> Act(d, x, keepsZone) == TestChannel(d, x.id, x.success)
    ensures x.Edit? && x.k < |d.channels| ==>
      var after, was := Act(d, x, keepsZone), d.channels[x.k];
      after.history == d.history && after.attempts == d.attempts && |after.channels| == |d.channels| &&
      (forall j :: 0 <= j < |d.channels| && j != x.k ==> after.channels[j] == d.channels[j]) &&
      after.channels[x.k] == was.(enabled := x.enabled, eventTypes := x.eventTypes, clusterIds := x.clusterIds)
    ensures x.CommitAll? ==> Act(d, x, keepsZone) == Commit(d, keepsZone)
  {
    assert (xs + [x])[..|xs|] == xs;
    hide Fire;
  }

  /** A commit changes nothing but, on a database that drops it, the zone of the stamps. */
  lemma CommitIs(d: Desk, keepsZone: bool)
    ensures var after := Commit(d, keepsZone);
      after.history == d.history && after.attempts == d.attempts && (keepsZone ==> after == d) &&
      |after.channels| == |d.channels| && forall k :: 0 <= k < |d.channels| ==>
        after.channels[k] == d.channels[k].(lastFired :=
          if keepsZone || d.channels[k].lastFired.None? then d.channels[k].lastFired
          else Some(Naive(d.channels[k].lastFired.value.at)))
  {
    assert keepsZone ==> Commit(d, keepsZone).channels == d.channels;
  }

  /** An alert is handled between two instants, and is not typed as a test. */
  ghost predicate FiredBetween(x: Action, now: real, later: real)
    requires x.FireAlert?
  {
    x.alert.eventType != TEST && ClockRuns(x.readings, now) &&
    forall k :: 0 <= k < |x.readings| ==> x.readings[k].recordedAt <= later
  }

  /** The clock never runs backwards over the run. */
  ghost predicate Plausible(xs: seq<Action>, times: seq<real>) {
    |times| == |xs| + 1 &&
    (forall i, j :: 0 <= i < j < |times| ==> times[i] <= times[j]) &&
    forall i :: 0 <= i < |xs| && xs[i].FireAlert? ==> FiredBetween(xs[i], times[i], times[i + 1])
  }

  ghost predicate Sound(d: Desk, now: real) {
    DistinctIds(d) && CountersAgree(d) && Remembers(d, now) && Spaced(d)
  }

  lemma FireActKeeps(d: Desk, a: Alert, rs: seq<Reading>, now: real, later: real)
    requires Sound(d, now) && now <= later && |rs| == |d.channels|
    requires FiredBetween(FireAlert(a, rs), now, later)
    ensures Sound(Fire(d, a, rs).desk, later)
  {
    var end := ClockAfter(rs, now, |rs|);
    assert end <= later;
    hide FireUpTo;
    hide Spaced;
    hide CountersAgree;
    hide Remembers;
    hide ClockRuns;
    hide ClockAfter;
    FireKeepsCounters(d, a, rs, |rs|);
    FireKeepsSpacing(d, a, rs, |rs|, now);
    RemembersLater(Fire(d, a, rs).desk, end, later);
  }

  lemma TestActKeeps(d: Desk, id: nat, success: bool, now: real)
    requires Sound(d, now)
    ensures Sound(TestChannel(d, id, success), now)
  {
    TestKeepsCounters(d, id, success);
    var after := TestChannel(d, id, success);
    hide TestChannel;
    hide CountersAgree;
    assert Spaced(after) by {
      assert forall m, i, j :: 0 <= m < |d.channels| && 0 <= i < j < |d.attempts| && BothTo(after, m, i, j) ==>
        BothTo(d, m, i, j);
    }
  }

  /** Two desks that differ in nothing an invariant looks at. */
  ghost predicate SameBooks(d: Desk, after: Desk) {
    |after.channels| == |d.channels| && after.attempts == d.attempts && after.history == d.history &&
    forall i :: 0 <= i < |d.channels| ==> SameRecord(d.channels[i], after.channels[i])
  }

  predicate SameRecord(ch: Channel, after: Channel) {
    after.id == ch.id && after.minInterval == ch.minInterval &&
    after.totalSent == ch.totalSent && after.totalFailed == ch.totalFailed &&
    (after.lastFired.Some? <==> ch.lastFired.Some?) &&
    (ch.lastFired.Some? ==> after.lastFired.value.at == ch.lastFired.value.at)
  }

  lemma {:induction false} SameBooksSound(d: Desk, after: Desk, now: real)
    requires Sound(d, now) && SameBooks(d, after)
    ensures Sound(after, now)
  {
    assert forall i :: 0 <= i < |d.channels| ==> SameRecord(d.channels[i], after.channels[i]);
    assert forall m, i, j :: 0 <= m < |d.channels| && 0 <= i < j < |d.attempts| && BothTo(after, m, i, j) ==>
      BothTo(d, m, i, j);
  }

  lemma ActKeeps(d: Desk, x: Action, now: real, later: real, keepsZone: bool)
    requires Sound(d, now) && now <= later
    requires x.FireAlert? ==> FiredBetween(x, now, later)
    ensures Sound(Act(d, x, keepsZone), later)
  {
    hide Sound;
    hide FiredBetween;
    hide TestChannel;
    hide Fire;
    if x.FireAlert? && |x.readings| == |d.channels| {
      FireActKeeps(d, x.alert, x.readings, now, later);
    } else {
      if x.SendTest? {
        TestActKeeps(d, x.id, x.success, now);
      } else {
        SameBooksSound(d, Act(d, x, keepsZone), now);
      }
      SoundLater(Act(d, x, keepsZone), now, later);
    }
  }

  lemma SoundLater(d: Desk, now: real, later: real)
    requires Sound(d, now) && now <= later
    ensures Sound(d, later)
  {
    RemembersLater(d, now, later);
    hide Remembers;
    hide Spaced;
    hide CountersAgree;
    hide DistinctIds;
  }

  /** Over every run with a clock that does not go back, on either kind of database and
      whichever calls raise: attempts on a channel, successful or not, are never closer
      than its interval; and its counters equal its sent and failed rows, test alerts
      aside. */
  lemma {:induction false} RunKeeps(d: Desk, xs: seq<Action>, times: seq<real>, keepsZone: bool)
    requires Plausible(xs, times) && Sound(d, times[0])
    ensures Sound(ActAll(d, xs, keepsZone), times[|xs|])
  {
    if xs != [] {
      var n := |xs| - 1;
      assert Plausible(xs[..n], times[..|times| - 1]);
      RunKeeps(d, xs[..n], times[..|times| - 1], keepsZone);
      ActKeeps(ActAll(d, xs[..n], keepsZone), xs[n], times[n], times[n + 1], keepsZone);
    }
  }

  // ---------------------------------------------------------------------
  // Stamps over a run
  // ---------------------------------------------------------------------

  /** Stamps with a zone, and intervals in range. */
  ghost predicate Checkable(d: Desk) {
    forall k :: 0 <= k < |d.channels| ==>
      Fits(d.channels[k].minInterval) &&
      (d.channels[k].lastFired.Some? ==> d.channels[k].lastFired.value.Aware?)
  }

  lemma {:induction false} FireStaysCheckable(d: Desk, a: Alert, rs: seq<Reading>, n: nat)
    requires |rs| == |d.channels| && n <= |d.channels| && Checkable(d)
    ensures Checkable(FireUpTo(d, a, rs, n).desk)
  {
    if n > 0 {
      FireStaysCheckable(d, a, rs, n - 1);
    }
  }

  lemma {:induction false} StaysCheckable(d: Desk, xs: seq<Action>)
    requires Checkable(d)
    ensures Checkable(ActAll(d, xs, true))
  {
    if xs != [] {
      var init, x := xs[..|xs| - 1], xs[|xs| - 1];
      StaysCheckable(d, init);
      var mid := ActAll(d, init, true);
      if x.FireAlert? && |x.readings| == |mid.channels| {
        FireStaysCheckable(mid, x.alert, x.readings, |x.readings|);
      }
      hide FireUpTo;
    }
  }

  /** On a database that keeps the zone, with intervals in range, every call of every run
      completes, and so gives each matching channel its one row. */
  lemma ZoneKeptCompletes(d: Desk, xs: seq<Action>, a: Alert, rs: seq<Reading>)
    requires Checkable(d) && |rs| == |ActAll(d, xs, true).channels|
    ensures Fire(ActAll(d, xs, true), a, rs).Done?
    ensures DistinctIds(ActAll(d, xs, true)) ==>
      RowsEach(ActAll(d, xs, true), a, Fire(ActAll(d, xs, true), a, rs).desk, |rs|)
  {
    var now := ActAll(d, xs, true);
    StaysCheckable(d, xs);
    CompletesExactlyWhen(now, a, rs);
    if DistinctIds(now) {
      OneRowEachExactlyWhen(now, a, rs);
    }
  }

  lemma {:induction false} ChannelAfter(d: Desk, a: Alert, rs: seq<Reading>, n: nat, k: nat)
    requires |rs| == |d.channels| && k < n <= |d.channels| && FireUpTo(d, a, rs, n).Done?
    ensures FireUpTo(d, a, rs, n).desk.channels[k] == Handled(d.channels[k], a, rs[k])
    decreases n
  {
    if k < n - 1 {
      ChannelAfter(d, a, rs, n - 1, k);
    }
  }

  /** On one that drops it, a channel with an interval that was sent to once makes every
      matching alert after the commit raise. */
  lemma SecondCallRaises(d: Desk, a: Alert, rs: seq<Reading>, k: nat, later: Alert, rs': seq<Reading>)
    requires |rs| == |rs'| == |d.channels| && k < |d.channels| && d.channels[k].minInterval != 0
    requires Fire(d, a, rs).Done? && Dispatches(d.channels[k], a, rs[k]) && Matches(d.channels[k], later)
    ensures Fire(Commit(Fire(d, a, rs).desk, false), later, rs').Raised?
  {
    ChannelAfter(d, a, rs, |rs|, k);
    var after := Commit(Fire(d, a, rs).desk, false);
    assert after.channels[k] == ReloadedChannel(Handled(d.channels[k], a, rs[k]), false);
    assert Raises(after.channels[k], later);
    CompletesExactlyWhen(after, later, rs');
  }

  /** A channel whose interval is out of range gets one alert: every matching one after
      it raises, in the same session already and on any database. */
  lemma OversizedRaises(d: Desk, a: Alert, rs: seq<Reading>, k: nat, later: Alert, rs': seq<Reading>)
    requires |rs| == |rs'| == |d.channels| && k < |d.channels|
    requires d.channels[k].minInterval != 0 && !Fits(d.channels[k].minInterval)
    requires Fire(d, a, rs).Done? && Dispatches(d.channels[k], a, rs[k]) && Matches(d.channels[k], later)
    ensures Fire(Fire(d, a, rs).desk, later, rs').Raised?
  {
    ChannelAfter(d, a, rs, |rs|, k);
    var after := Fire(d, a, rs).desk;
    assert Raises(after.channels[k], later);
    CompletesExactlyWhen(after, later, rs');
  }

  /** Two alerts sixteen minutes apart, a commit between them, on a channel whose
      interval is a minute: the second raises and leaves no row, where a database that
      keeps the zone would have let it through. */
  lemma TwoAlertsOnSqlite()
    ensures var ch := Channel(1, true, [], [], 60, None, None, None, None);
      var a := Alert("health_change", "critical", "down", "", None);
      var once := Fire(Desk([ch], [], []), a, [Reading(0.0, true, "", 1.0)]);
      var rs := [Reading(1000.0, true, "", 1001.0)];
      once.Done? && |once.desk.history| == 1 &&
      Fire(Commit(once.desk, false), a, rs) == Raised(Commit(once.desk, false)) &&
      Fire(Commit(once.desk, true), a, rs).Done? && |Fire(Commit(once.desk, true), a, rs).desk.history| == 2
  {
    var ch := Channel(1, true, [], [], 60, None, None, None, None);
    var a := Alert("health_change", "critical", "down", "", None);
    var d, r, r' := Desk([ch], [], []), Reading(0.0, true, "", 1.0), Reading(1000.0, true, "", 1001.0);
    assert FireUpTo(d, a, [r], 1) == HandleOne(d, 0, a, r);
    var once := Fire(d, a, [r]).desk;
    assert once.channels == [Handled(ch, a, r)];
    forall keepsZone: bool
      ensures Fire(Commit(once, keepsZone), a, [r']) == HandleOne(Commit(once, keepsZone), 0, a, r')
    {
      assert FireUpTo(Commit(once, keepsZone), a, [r'], 1) == HandleOne(Commit(once, keepsZone), 0, a, r');
    }
  }

  function AttemptsTo(attempts: seq<Attempt>, id: nat): nat {
    if attempts == [] then 0
    else AttemptsTo(attempts[..|attempts| - 1], id) + (if attempts[|attempts| - 1].channelId == id then 1 else 0)
  }

  lemma AttemptsToIs(attempts: seq<Attempt>, x: Attempt, id: nat)
    ensures AttemptsTo([], id) == 0
    ensures AttemptsTo(attempts + [x], id) == AttemptsTo(attempts, id) + if x.channelId == id then 1 else 0
  {
    assert (attempts + [x])[..|attempts|] == attempts;
  }

  /** Still stuck, and not sent to meanwhile. */
  ghost predicate StillStuck(d: Desk, after: Desk, k: nat) {
    k < |d.channels| == |after.channels| && Stuck(after.channels[k]) &&
    (forall i :: 0 <= i < |d.channels| ==> after.channels[i].id == d.channels[i].id) &&
    AttemptsTo(after.attempts, d.channels[k].id) == AttemptsTo(d.attempts, d.channels[k].id)
  }

  lemma {:induction false} FireLeavesStuck(d: Desk, a: Alert, rs: seq<Reading>, n: nat, k: nat)
    requires |rs| == |d.channels| && n <= |d.channels| && k < |d.channels| && DistinctIds(d) && Stuck(d.channels[k])
    ensures StillStuck(d, FireUpTo(d, a, rs, n).desk, k)
  {
    if n > 0 {
      FireLeavesStuck(d, a, rs, n - 1, k);
      var mid := FireUpTo(d, a, rs, n - 1).desk;
      var one := Attempt(mid.channels[n - 1].id, rs[n - 1].checkedAt, rs[n - 1].recordedAt);
      assert (mid.attempts + [one])[..|mid.attempts|] == mid.attempts;
    }
  }

  /** For ever: once stuck, a channel whose interval nobody changes is never sent to
      again, whatever happens, on any database. */
  lemma {:induction false} StuckForEver(d: Desk, xs: seq<Action>, k: nat, keepsZone: bool)
    requires k < |d.channels| && DistinctIds(d) && Stuck(d.channels[k])
    ensures StillStuck(d, ActAll(d, xs, keepsZone), k)
  {
    if xs != [] {
      var init, x := xs[..|xs| - 1], xs[|xs| - 1];
      StuckForEver(d, init, k, keepsZone);
      var mid := ActAll(d, init, keepsZone);
      assert DistinctIds(mid);
      if x.FireAlert? && |x.readings| == |mid.channels| {
        FireLeavesStuck(mid, x.alert, x.readings, |x.readings|, k);
      }
      hide FireUpTo;
    }
  }
}
