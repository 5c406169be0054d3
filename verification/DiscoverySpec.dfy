/** The cluster table and what one sweep of discovery does to it. */
module DiscoverySpec {
  import opened Bytes

  /** A context read from the local kubeconfig. */
  datatype Candidate = Candidate(name: string, apiServer: Option<string>, kubeconfig: Option<string>,
                                 provider: string, region: Option<string>, namespace: string,
                                 source: string, auth: string, blockers: seq<string>)
  {
    predicate Adoptable() {
      kubeconfig.Some? && blockers == []
    }
  }

  /** What connecting to a context found; every field is up to the environment. */
  datatype Probe = Probe(reachable: bool, hasBnk: bool, hasDpf: bool, hasNico: bool,
                         version: Option<string>, namespaces: seq<string>, components: seq<string>)

  /** `meta_data`: a flag that was never recorded is None, not false. */
  datatype Meta = Meta(discovered: bool, source: Option<string>, auth: Option<string>,
                       components: seq<string>, hasDpf: Option<bool>, hasNico: Option<bool>, probeError: bool)

  datatype Status = Active | Unreached | Other

  /** A row of `kubernetes_clusters`. */
  datatype Cluster = Cluster(id: nat, name: string, context: string, apiServer: Option<string>,
                             kubeconfig: Option<string>, provider: string, region: Option<string>,
                             namespace: string, status: Status, version: Option<string>,
                             namespaces: seq<string>, synced: Option<int>, meta: Meta)

  datatype Db = Db(rows: seq<Cluster>, nextId: nat)

  datatype State = Unusable | Unreachable | Reachable

  datatype Report = Report(context: string, state: State, registered: bool, clusterId: Option<nat>)

  /** The database's own constraints: primary key and unique name. */
  ghost predicate ValidDb(db: Db) {
    (forall i, j :: 0 <= i < j < |db.rows| ==> db.rows[i].id != db.rows[j].id && db.rows[i].name != db.rows[j].name) &&
    forall i :: 0 <= i < |db.rows| ==> db.rows[i].id < db.nextId
  }

  // ---------------------------------------------------------------------
  // Lookups
  // ---------------------------------------------------------------------

  predicate NameTaken(rows: seq<Cluster>, name: string) {
    exists i :: 0 <= i < |rows| && rows[i].name == name
  }

  predicate HasContext(rows: seq<Cluster>, context: string) {
    exists i :: 0 <= i < |rows| && rows[i].context == context
  }

  /** `_existing`: index of the first row with this context. */
  function Existing(rows: seq<Cluster>, context: string): (r: Option<nat>)
    ensures r.Some? <==> HasContext(rows, context)
    ensures r.Some? ==> r.value < |rows| && rows[r.value].context == context
  {
    if rows == [] then None
    else
      assert forall i :: 1 <= i < |rows| ==> rows[i] == rows[1..][i - 1];
      if rows[0].context == context then Some(0)
      else
        match Existing(rows[1..], context)
        case None => None
        case Some(i) => Some(i + 1)
  }

  function Digits(n: nat): string {
    if n < 10 then [('0' as int + n) as char] else Digits(n / 10) + [('0' as int + n % 10) as char]
  }

  /** `f"{base}-{suffix}"`. */
  function Suffixed(base: string, suffix: nat): string {
    base + "-" + Digits(suffix)
  }

  const LAST_SUFFIX: nat := 99

  /** Some display name for `base` is still free. */
  predicate FreeName(rows: seq<Cluster>, base: string) {
    !NameTaken(rows, base) || exists s :: 2 <= s <= LAST_SUFFIX && !NameTaken(rows, Suffixed(base, s))
  }

  /** `_unique_name` from suffix `s` on. */
  function FirstFree(rows: seq<Cluster>, base: string, s: nat, fallback: string): string
    requires 2 <= s <= LAST_SUFFIX + 1
    decreases LAST_SUFFIX + 1 - s
  {
    if s > LAST_SUFFIX then base + "-" + fallback
    else if !NameTaken(rows, Suffixed(base, s)) then Suffixed(base, s)
    else FirstFree(rows, base, s + 1, fallback)
  }

  function UniqueName(rows: seq<Cluster>, base: string, fallback: string): string {
    if !NameTaken(rows, base) then base else FirstFree(rows, base, 2, fallback)
  }

  // ---------------------------------------------------------------------
  // Writing
  // ---------------------------------------------------------------------

  /** `_apply`: connection details and flags are overwritten; a version, namespace or
      component list is only replaced by one that was found. */
  function Apply(row: Cluster, c: Candidate, p: Probe, now: int): Cluster {
    row.(context := c.name, apiServer := c.apiServer, kubeconfig := c.kubeconfig, provider := c.provider,
         region := c.region, namespace := c.namespace,
         status := if p.reachable then Active else Unreached,
         version := if p.version.Some? then p.version else row.version,
         namespaces := if p.namespaces != [] then p.namespaces else row.namespaces,
         synced := if p.reachable then Some(now) else row.synced,
         meta := Meta(true, Some(c.source), Some(c.auth),
                      if p.components != [] then p.components else row.meta.components,
                      Some(p.hasDpf), Some(p.hasNico), row.meta.probeError))
  }

  /** A row as the model's defaults leave it. */
  function NewRow(id: nat, name: string): Cluster {
    Cluster(id, name, "", None, None, "", None, "default", Active, None, [], None,
            Meta(false, None, None, [], None, None, false))
  }

  /** Reachable and worth registering, or asked for regardless. */
  predicate Registers(c: Candidate, p: Probe, adoptAll: bool) {
    c.Adoptable() && p.reachable && (p.hasBnk || p.hasDpf || p.hasNico || adoptAll)
  }

  datatype Processed = Done(db: Db, report: Report) | NameClash

  /** One context. A row whose name is taken fails the flush. */
  function Process(db: Db, c: Candidate, p: Probe, adoptAll: bool, now: int, fallback: string): Processed {
    if !c.Adoptable() then Done(db, Report(c.name, Unusable, false, None))
    else
      var state := if p.reachable then Reachable else Unreachable;
      match Existing(db.rows, c.name)
      case Some(i) =>
        Done(db.(rows := db.rows[i := Apply(db.rows[i], c, p, now)]),
             Report(c.name, state, true, Some(db.rows[i].id)))
      case None =>
        if !Registers(c, p, adoptAll) then Done(db, Report(c.name, state, false, None))
        else
          var name := UniqueName(db.rows, c.name, fallback);
          if NameTaken(db.rows, name) then NameClash
          else
            Done(Db(db.rows + [Apply(NewRow(db.nextId, name), c, p, now)], db.nextId + 1),
                 Report(c.name, state, true, Some(db.nextId)))
  }

  datatype Swept = Swept(db: Db, reports: seq<Report>) | Failed

  function ProbeOf(probes: map<string, Probe>, name: string): Probe {
    if name in probes then probes[name] else Probe(false, false, false, false, None, [], [])
  }

  /** Every context in turn; one failed flush fails the sweep. */
  function Sweep(db: Db, cs: seq<Candidate>, probes: map<string, Probe>, adoptAll: bool, now: int,
                 fallback: string): (r: Swept)
    ensures r.Swept? ==> |r.reports| == |cs|
  {
    if cs == [] then Swept(db, [])
    else match Sweep(db, cs[..|cs| - 1], probes, adoptAll, now, fallback)
      case Failed => Failed
      case Swept(d, reports) =>
        var last := cs[|cs| - 1];
        match Process(d, last, ProbeOf(probes, last.name), adoptAll, now, fallback)
        case NameClash => Failed
        case Done(d', report) => Swept(d', reports + [report])
  }

  /** A footprint probe of a row registered without one. */
  datatype Footprint = Footprint(hasDpf: bool, hasNico: bool, components: seq<string>, namespaces: seq<string>)

  predicate Stale(row: Cluster) {
    row.meta.hasDpf.None? || row.meta.hasNico.None?
  }

  /** `refresh_cluster_footprint`: a failed probe leaves the flags unset. */
  function Refresh(row: Cluster, f: Option<Footprint>, now: int): Cluster {
    match f
    case None => row.(meta := row.meta.(probeError := true))
    case Some(found) =>
      row.(meta := row.meta.(probeError := false, hasDpf := Some(found.hasDpf), hasNico := Some(found.hasNico),
                             components := if found.components != [] then found.components else row.meta.components),
           namespaces := if found.namespaces != [] then found.namespaces else row.namespaces,
           synced := Some(now))
  }

  function FootprintOf(found: map<nat, Footprint>, id: nat): Option<Footprint> {
    if id in found then Some(found[id]) else None
  }

  /** The rows whose footprint is due and can be had. */
  function Found(rows: seq<Cluster>, found: map<nat, Footprint>): set<nat> {
    set i: nat | i < |rows| && Stale(rows[i]) && rows[i].id in found
  }

  function Backfilled(row: Cluster, found: map<nat, Footprint>, now: int): Cluster {
    if Stale(row) then Refresh(row, FootprintOf(found, row.id), now) else row
  }

  /** `backfill_footprints` over the whole table. */
  function Backfill(rows: seq<Cluster>, found: map<nat, Footprint>, now: int): (r: seq<Cluster>)
    ensures |r| == |rows|
  {
    seq(|rows|, i requires 0 <= i < |rows| => Backfilled(rows[i], found, now))
  }

  /** `run`: backfill, then sweep; a failure leaves the table as it was. */
  function Run(db: Db, found: map<nat, Footprint>, cs: seq<Candidate>, probes: map<string, Probe>,
               adoptAll: bool, now: int, fallback: string): Swept
  {
    Sweep(db.(rows := Backfill(db.rows, found, now)), cs, probes, adoptAll, now, fallback)
  }
}
