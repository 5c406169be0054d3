/** Alert dispatch: channels, their history rows, and what one alert does to them. */
module AlertSpec {
  import opened Bytes

  datatype Status = Sent | Failed | RateLimited

  /** A `datetime`, in seconds: with its zone, as `datetime.now(UTC)` gives it, or
      without, as SQLite gives a `DateTime(timezone=True)` back. */
  datatype Stamp = Aware(at: real) | Naive(at: real)

  /** A row of `alert_channels`; an interval of 0 stands for NULL too. */
  datatype Channel = Channel(id: nat, enabled: bool, eventTypes: seq<string>, clusterIds: seq<int>,
                             minInterval: int, lastFired: Option<Stamp>,
                             totalSent: Option<int>, totalFailed: Option<int>, lastError: Option<string>)

  datatype Alert = Alert(eventType: string, severity: string, title: string, message: string, clusterId: Option<int>)

  /** A row of `alert_history`. */
  datatype Row = Row(channelId: nat, status: Status, alert: Alert)

  datatype Result = Result(channelId: nat, status: Status)

  /** What the environment did while one channel was handled: the clock when the
      interval was checked, whether the request got through, the clock afterwards. */
  datatype Reading = Reading(checkedAt: real, success: bool, error: string, recordedAt: real)

  /** A request actually made to a channel. */
  datatype Attempt = Attempt(channelId: nat, started: real, recorded: real)

  predicate Matches(ch: Channel, a: Alert) {
    ch.enabled &&
    (ch.eventTypes == [] || a.eventType in ch.eventTypes) &&
    !(ch.clusterIds != [] && a.clusterId.Some? && a.clusterId.value != 0 && a.clusterId.value !in ch.clusterIds)
  }

  /** What `timedelta(seconds=...)` takes: days from -999999999 to 999999999. */
  predicate Fits(seconds: int) {
    -999_999_999 <= seconds / 86_400 <= 999_999_999
  }

  /** The interval check raises: the interval is none `timedelta` can hold, or a stamp
      without a zone would be subtracted from one with. */
  predicate Stuck(ch: Channel) {
    ch.minInterval != 0 && ch.lastFired.Some? && (!Fits(ch.minInterval) || ch.lastFired.value.Naive?)
  }

  predicate Raises(ch: Channel, a: Alert) {
    Matches(ch, a) && Stuck(ch)
  }

  predicate Limited(ch: Channel, now: real) {
    ch.lastFired.Some? && ch.minInterval != 0 && now - ch.lastFired.value.at < ch.minInterval as real
  }

  function Count(total: Option<int>): int {
    if total.Some? then total.value else 0
  }

  /** Whether handling the channel makes a request. */
  predicate Dispatches(ch: Channel, a: Alert, r: Reading) {
    Matches(ch, a) && !Stuck(ch) && !Limited(ch, r.checkedAt)
  }

  function StatusOf(ch: Channel, r: Reading): Status {
    if Limited(ch, r.checkedAt) then RateLimited else if r.success then Sent else Failed
  }

  function Handled(ch: Channel, a: Alert, r: Reading): Channel {
    if !Dispatches(ch, a, r) then ch
    else if r.success then
      ch.(lastFired := Some(Aware(r.recordedAt)), totalSent := Some(Count(ch.totalSent) + 1), lastError := None)
    else
      ch.(lastFired := Some(Aware(r.recordedAt)), totalFailed := Some(Count(ch.totalFailed) + 1),
          lastError := Some(r.error))
  }

  /** The session's tables, and the requests made so far. */
  datatype Desk = Desk(channels: seq<Channel>, history: seq<Row>, attempts: seq<Attempt>)

  /** A call that completes, or raises with the session left as it is. */
  datatype Outcome = Done(desk: Desk) | Raised(desk: Desk)

  /** One turn of the loop. */
  function HandleOne(d: Desk, k: nat, a: Alert, r: Reading): Outcome
    requires k < |d.channels|
  {
    var ch := d.channels[k];
    if !Matches(ch, a) then Done(d)
    else if Stuck(ch) then Raised(d)
    else
      Done(Desk(d.channels[k := Handled(ch, a, r)],
                d.history + [Row(ch.id, StatusOf(ch, r), a)],
                if Dispatches(ch, a, r) then d.attempts + [Attempt(ch.id, r.checkedAt, r.recordedAt)]
                else d.attempts))
  }

  /** `fire_alert` over the first `n` channels. */
  function FireUpTo(d: Desk, a: Alert, rs: seq<Reading>, n: nat): (after: Outcome)
    requires n <= |d.channels| && |rs| == |d.channels|
    ensures |after.desk.channels| == |d.channels|
    ensures forall k :: n <= k < |d.channels| ==> after.desk.channels[k] == d.channels[k]
  {
    if n == 0 then Done(d)
    else match FireUpTo(d, a, rs, n - 1)
      case Raised(mid) => Raised(mid)
      case Done(mid) => HandleOne(mid, n - 1, a, rs[n - 1])
  }

  function Fire(d: Desk, a: Alert, rs: seq<Reading>): Outcome
    requires |rs| == |d.channels|
  {
    FireUpTo(d, a, rs, |d.channels|)
  }

  const TEST: string := "test"

  /** The index of the first channel with this id. */
  function FindChannel(channels: seq<Channel>, id: nat): (r: Option<nat>)
    ensures r.Some? ==> r.value < |channels| && channels[r.value].id == id
    ensures r.None? ==> forall i :: 0 <= i < |channels| ==> channels[i].id != id
  {
    if channels == [] then None
    else
      assert forall i :: 1 <= i < |channels| ==> channels[i] == channels[1..][i - 1];
      if channels[0].id == id then Some(0)
      else
        match FindChannel(channels[1..], id)
        case None => None
        case Some(i) => Some(i + 1)
  }

  function TestRow(id: nat, success: bool): Row {
    Row(id, if success then Sent else Failed, Alert(TEST, "info", "bnkscope Test Alert", "Test alert", None))
  }

  /** `test_channel`. */
  function TestChannel(d: Desk, id: nat, success: bool): Desk {
    if FindChannel(d.channels, id).None? then d else d.(history := d.history + [TestRow(id, success)])
  }

  /** One row and one result per matching channel, in channel order. */
  function ResultsUpTo(channels: seq<Channel>, a: Alert, rs: seq<Reading>, n: nat): seq<Result>
    requires n <= |channels| && |rs| == |channels|
  {
    if n == 0 then []
    else
      var before, ch := ResultsUpTo(channels, a, rs, n - 1), channels[n - 1];
      if Matches(ch, a) then before + [Result(ch.id, StatusOf(ch, rs[n - 1]))] else before
  }

  /** A stamp as the database gives it back after a commit. */
  function Reloaded(s: Stamp, keepsZone: bool): Stamp {
    if keepsZone then s else Naive(s.at)
  }

  function ReloadedChannel(ch: Channel, keepsZone: bool): Channel {
    match ch.lastFired
    case None => ch
    case Some(s) => ch.(lastFired := Some(Reloaded(s, keepsZone)))
  }

  /** A commit: the session's objects expire and are read back. */
  function Commit(d: Desk, keepsZone: bool): Desk {
    d.(channels := seq(|d.channels|, i requires 0 <= i < |d.channels| => ReloadedChannel(d.channels[i], keepsZone)))
  }
}
