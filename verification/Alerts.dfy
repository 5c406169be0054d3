/** `alert_service`: the channel loop and its updates. */
module Alerts {
  import opened Bytes
  import opened AlertSpec
  import opened AlertLaws

  class AlertService {
    var channels: seq<Channel>
    var history: seq<Row>
    ghost var attempts: seq<Attempt>

    ghost function Tables(): Desk
      reads this
    {
      Desk(channels, history, attempts)
    }

    constructor (channels: seq<Channel>, history: seq<Row>)
      ensures this.channels == channels && this.history == history && attempts == []
    {
      this.channels, this.history, this.attempts := channels, history, [];
    }

    /** `fire_alert`. It raises exactly when an enabled matching channel that was sent to
        before has an interval out of range, or one and a stamp without a zone. Otherwise
        every enabled channel that matches gets one history row and one result, in order;
        the others get neither. */
    method FireAlert(alert: Alert, readings: seq<Reading>) returns (results: seq<Result>, raised: bool)
      requires |readings| == |channels|
      modifies this
      ensures raised <==> exists k :: 0 <= k < |old(channels)| && Raises(old(channels)[k], alert)
      ensures Fire(old(Tables()), alert, readings) == if raised then Raised(Tables()) else Done(Tables())
      ensures !raised ==> results == ResultsUpTo(old(channels), alert, readings, |old(channels)|)
      ensures !raised ==> old(history) <= history && RowResults(history[|old(history)|..]) == results
      ensures raised ==> results == []
      ensures !raised && DistinctIds(old(Tables())) ==> EachAsDue(old(Tables()), alert, readings, Tables())
    {
      results, raised := [], false;
      ghost var before := Tables();
      for k := 0 to |channels|
        invariant FireUpTo(before, alert, readings, k) == Done(Tables())
        invariant |channels| == |before.channels| && !raised
        invariant results == ResultsUpTo(before.channels, alert, readings, k)
      {
        var ch := channels[k];
        assert ch == before.channels[k];
        var handled, failed, result := HandleChannel(k, alert, readings[k]);
        if failed {
          CompletesUpTo(before, alert, readings, k);
          StopsAtFirst(before, alert, readings, k, |readings|);
          return [], true;
        }
        if handled {
          results := results + [result];
        }
      }
      FireReports(before, alert, readings, |channels|);
      CompletesExactlyWhen(before, alert, readings);
      EachSentExactlyWhenDue(before, alert, readings);
      hide EachAsDue;
    }

    /** The query's and the loop's filters. */
    method Filter(ch: Channel, alert: Alert) returns (wanted: bool)
      ensures wanted == Matches(ch, alert)
    {
      if !ch.enabled {
        return false;
      }
      if ch.eventTypes != [] && alert.eventType !in ch.eventTypes {
        return false;
      }
      if ch.clusterIds != [] && alert.clusterId.Some? && alert.clusterId.value != 0 &&
         alert.clusterId.value !in ch.clusterIds {
        return false;
      }
      wanted := true;
    }

    /** One turn of the loop: filters, rate limit, dispatch, bookkeeping. */
    method HandleChannel(k: nat, alert: Alert, r: Reading) returns (handled: bool, raised: bool, result: Result)
      requires k < |channels|
      modifies this
      ensures HandleOne(old(Tables()), k, alert, r) == if raised then Raised(Tables()) else Done(Tables())
      ensures raised <==> Raises(old(channels)[k], alert)
      ensures !raised ==> (handled <==> Matches(old(channels)[k], alert))
      ensures handled ==> result == Result(old(channels)[k].id, StatusOf(old(channels)[k], r))
    {
      hide Matches;
      hide Fits;
      var ch := channels[k];
      handled, raised, result := false, false, Result(ch.id, RateLimited);
      var wanted := Filter(ch, alert);
      if !wanted {
        return;
      }
      if ch.lastFired.Some? && ch.minInterval != 0 {
        if !Fits(ch.minInterval) || ch.lastFired.value.Naive? {
          raised := true;
          return;
        }
        if r.checkedAt - ch.lastFired.value.at < ch.minInterval as real {
          handled := true;
          history := history + [Row(ch.id, RateLimited, alert)];
          assert channels == channels[k := ch];
          return;
        }
      }
      handled := true;
      attempts := attempts + [Attempt(ch.id, r.checkedAt, r.recordedAt)];
      var status := if r.success then Sent else Failed;
      history := history + [Row(ch.id, status, alert)];
      ch := ch.(lastFired := Some(Aware(r.recordedAt)));
      if r.success {
        ch := ch.(totalSent := Some(Count(ch.totalSent) + 1), lastError := None);
      } else {
        ch := ch.(totalFailed := Some(Count(ch.totalFailed) + 1), lastError := Some(r.error));
      }
      channels := channels[k := ch];
      result := Result(ch.id, status);
    }

    /** `test_channel`: not found, or one row typed "test" that no total counts; channels
        and attempts stay, so neither totals nor intervals notice. */
    method SendTest(id: nat, success: bool) returns (found: bool)
      modifies this`history
      ensures found <==> exists i :: 0 <= i < |channels| && channels[i].id == id
      ensures !found ==> history == old(history)
      ensures found ==> |history| == |old(history)| + 1 && old(history) <= history
      ensures found ==>
        var row := history[|old(history)|];
        row.channelId == id && row.alert.eventType == TEST && (row.status == Sent <==> success) &&
        row.status != RateLimited
      ensures forall i, s :: Tally(history, i, s) == Tally(old(history), i, s)
      ensures CountersAgree(old(Tables())) ==> CountersAgree(Tables())
    {
      TestKeepsCounters(Tables(), id, success);
      var at := FindChannel(channels, id);
      found := at.Some?;
      if found {
        var status := if success then Sent else Failed;
        var test := Alert(TEST, "info", "bnkscope Test Alert", "Test alert", None);
        history := history + [Row(channels[at.value].id, status, test)];
      }
      assert Tables() == TestChannel(old(Tables()), id, success);
    }
  }
}
