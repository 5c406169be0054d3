/** `ClusterDiscoveryService`: the loops and updates behind one sweep. */
module Discovery {
  import opened Bytes
  import opened DiscoverySpec
  import opened DiscoveryLaws

  datatype AdoptResult = Adopted(report: Report) | NotFound | NotAdoptable(blockers: seq<string>) | Clashed

  class ClusterDiscoveryService {
    var db: Db             // the session's view of `kubernetes_clusters`
    const fallback: string  // `id(self)` as text

    constructor (db: Db, fallback: string)
      ensures this.db == db && this.fallback == fallback
    {
      this.db, this.fallback := db, fallback;
    }

    /** Searches the base name, then suffixes 2 to 99. */
    method UniqueName(context: string) returns (name: string)
      ensures name == DiscoverySpec.UniqueName(db.rows, context, fallback)
      ensures FreeName(db.rows, context) ==> !NameTaken(db.rows, name)
    {
      if FreeName(db.rows, context) {
        UniqueNameIsFree(db.rows, context, fallback);
      }
      if !NameTaken(db.rows, context) {
        return context;
      }
      var suffix := 2;
      while suffix < 100
        invariant 2 <= suffix <= 100
        invariant FirstFree(db.rows, context, 2, fallback) == FirstFree(db.rows, context, suffix, fallback)
      {
        if !NameTaken(db.rows, Suffixed(context, suffix)) {
          return Suffixed(context, suffix);
        }
        suffix := suffix + 1;
      }
      name := context + "-" + fallback;
    }

    /** One context: refresh its row in place, or add one, or only report. */
    method ProcessOne(c: Candidate, probe: Probe, adoptAll: bool, now: int) returns (report: Report, clash: bool)
      modifies this`db
      ensures clash <==> Process(old(db), c, probe, adoptAll, now, fallback).NameClash?
      ensures !clash ==> Process(old(db), c, probe, adoptAll, now, fallback) == Done(db, report)
      ensures clash ==> db == old(db)
    {
      report, clash := Report(c.name, Unusable, false, None), false;
      var existing := Existing(db.rows, c.name);
      if !c.Adoptable() {
        return;
      }
      report := report.(state := if probe.reachable then Reachable else Unreachable);
      if existing.Some? {
        var i := existing.value;
        report := report.(registered := true, clusterId := Some(db.rows[i].id));
        db := db.(rows := db.rows[i := Apply(db.rows[i], c, probe, now)]);
        return;
      }
      if !probe.reachable {
        return;
      }
      if !(probe.hasBnk || probe.hasDpf || probe.hasNico || adoptAll) {
        return;
      }
      var name := UniqueName(c.name);
      var row := Apply(NewRow(db.nextId, name), c, probe, now);
      if NameTaken(db.rows, name) {
        clash := true;
        return;
      }
      report := report.(registered := true, clusterId := Some(db.nextId));
      db := Db(db.rows + [row], db.nextId + 1);
    }

    /** Probes the rows with no footprint on record; the others are not touched. */
    method BackfillFootprints(found: map<nat, Footprint>, now: int) returns (probed: nat)
      modifies this`db
      ensures db == old(db).(rows := Backfill(old(db).rows, found, now))
      ensures forall i :: 0 <= i < |db.rows| && !Stale(old(db).rows[i]) ==> db.rows[i] == old(db).rows[i]
      ensures probed == |Found(old(db).rows, found)|
    {
      probed := 0;
      ghost var rows := db.rows;
      ghost var done: set<nat> := {};
      assert Answered(done, rows, 0, found);
      hide *;
      for i := 0 to |db.rows|
        invariant |db.rows| == |rows| && db.nextId == old(db).nextId && probed == |done|
        invariant Answered(done, rows, i, found)
        invariant forall k :: 0 <= k < i ==> db.rows[k] == Backfilled(rows[k], found, now)
        invariant forall k :: i <= k < |rows| ==> db.rows[k] == rows[k]
      {
        var row := db.rows[i];
        BackfillOne(rows, i, found, now);
        if Stale(row) {
          var f := FootprintOf(found, row.id);
          db := db.(rows := db.rows[i := Refresh(row, f, now)]);
          if f.Some? {
            probed := probed + 1;
            OneMoreAnswered(done, rows, i, found);
            done := done + {i};
          }
        }
        if !Probes(rows, i, found) {
          NoneMoreAnswered(done, rows, i, found);
        }
      }
      BackfillAll(rows, db.rows, found, now);
      FoundIs(rows, found, done);
    }

    /** `run`. A failed flush rolls the whole sweep back. */
    method RunSweep(found: map<nat, Footprint>, cs: seq<Candidate>, probes: map<string, Probe>, adoptAll: bool,
                    now: int)
      returns (reports: seq<Report>, registered: nat, failed: bool)
      modifies this`db
      ensures failed <==> Run(old(db), found, cs, probes, adoptAll, now, fallback).Failed?
      ensures !failed ==> Run(old(db), found, cs, probes, adoptAll, now, fallback) == Swept(db, reports)
      ensures !failed ==> registered == CountRegistered(reports)
      ensures failed ==> db == old(db)
    {
      hide *;
      var saved := db;
      var probed := BackfillFootprints(found, now);
      ghost var filled := db;
      reports, registered, failed := [], 0, false;
      NothingSwept(saved, filled, found, cs, probes, adoptAll, now, fallback);
      for k := 0 to |cs|
        invariant Sweep(filled, cs[..k], probes, adoptAll, now, fallback) == Swept(db, reports)
        invariant registered == CountRegistered(reports) && !failed
      {
        SweepStep(filled, cs, k, probes, adoptAll, now, fallback);
        var report, clash := ProcessOne(cs[k], ProbeOf(probes, cs[k].name), adoptAll, now);
        if clash {
          FailedStays(filled, cs, k + 1, probes, adoptAll, now, fallback);
          db := saved;
          return [], 0, true;
        }
        CountSnoc(reports, report);
        reports := reports + [report];
        if report.registered {
          registered := registered + 1;
        }
      }
      assert cs[..|cs|] == cs;
    }

    /** `adopt`: one named context, whether or not anything runs on it. */
    method AdoptOne(name: string, local: seq<Candidate>, probe: Probe, now: int) returns (r: AdoptResult)
      modifies this`db
      ensures db == After(old(db), Adopt(name, local, probe, now, fallback))
      ensures r.NotFound? <==> forall c :: c in local ==> c.name != name
      ensures forall c :: Named(local, name) == Some(c) ==>
        if !c.Adoptable() then r == NotAdoptable(c.blockers)
        else match Process(old(db), c, probe, true, now, fallback)
          case NameClash => r == Clashed
          case Done(_, report) => r == Adopted(report)
      ensures r.Adopted? && r.report.registered ==> HasContext(db.rows, name)
      ensures r.Adopted? && probe.reachable ==> r.report.registered
    {
      var match_ := Named(local, name);
      if match_.None? {
        return NotFound;
      }
      if !match_.value.Adoptable() {
        return NotAdoptable(match_.value.blockers);
      }
      ghost var before := db;
      var report, clash := ProcessOne(match_.value, probe, true, now);
      if clash {
        return Clashed;
      }
      ProcessRegisters(before, match_.value, probe, true, now, fallback);
      r := Adopted(report);
    }
  }

  /** The probe of a stale row that answers. */
  ghost predicate Probes(rows: seq<Cluster>, k: nat, found: map<nat, Footprint>) {
    k < |rows| && Stale(rows[k]) && rows[k].id in found
  }

  lemma BackfillOne(rows: seq<Cluster>, i: nat, found: map<nat, Footprint>, now: int)
    requires i < |rows|
    ensures var row, f := rows[i], FootprintOf(found, rows[i].id);
      Backfilled(row, found, now) == (if Stale(row) then Refresh(row, f, now) else row) &&
      (Probes(rows, i, found) <==> Stale(row) && f.Some?)
  {
    hide Refresh;
  }

  lemma BackfillAll(rows: seq<Cluster>, after: seq<Cluster>, found: map<nat, Footprint>, now: int)
    requires |after| == |rows| && forall k :: 0 <= k < |rows| ==> after[k] == Backfilled(rows[k], found, now)
    ensures after == Backfill(rows, found, now)
    ensures forall k :: 0 <= k < |rows| && !Stale(rows[k]) ==> after[k] == rows[k]
  {
    hide Refresh;
  }

  /** Those of the first `n` rows whose probe answers. */
  ghost predicate Answered(done: set<nat>, rows: seq<Cluster>, n: nat, found: map<nat, Footprint>) {
    forall k: nat :: k in done <==> k < n && Probes(rows, k, found)
  }

  lemma OneMoreAnswered(done: set<nat>, rows: seq<Cluster>, n: nat, found: map<nat, Footprint>)
    requires Answered(done, rows, n, found) && Probes(rows, n, found)
    ensures n !in done && Answered(done + {n}, rows, n + 1, found)
  {
    hide Probes;
  }

  lemma NoneMoreAnswered(done: set<nat>, rows: seq<Cluster>, n: nat, found: map<nat, Footprint>)
    requires Answered(done, rows, n, found) && !Probes(rows, n, found)
    ensures Answered(done, rows, n + 1, found)
  {
    hide Probes;
  }

  lemma FoundIs(rows: seq<Cluster>, found: map<nat, Footprint>, done: set<nat>)
    requires Answered(done, rows, |rows|, found)
    ensures done == Found(rows, found)
  {
  }

  function CountRegistered(reports: seq<Report>): nat {
    if reports == [] then 0
    else CountRegistered(reports[..|reports| - 1]) + (if reports[|reports| - 1].registered then 1 else 0)
  }

  lemma SweepStep(db: Db, cs: seq<Candidate>, k: nat, probes: map<string, Probe>, adoptAll: bool, now: int,
                  fallback: string)
    requires k < |cs| && Sweep(db, cs[..k], probes, adoptAll, now, fallback).Swept?
    ensures var before, c := Sweep(db, cs[..k], probes, adoptAll, now, fallback), cs[k];
      Sweep(db, cs[..k + 1], probes, adoptAll, now, fallback) ==
        match Process(before.db, c, ProbeOf(probes, c.name), adoptAll, now, fallback)
        case NameClash => Failed
        case Done(db', report) => Swept(db', before.reports + [report])
  {
    hide Process;
    assert cs[..k + 1][..k] == cs[..k];
  }

  lemma CountSnoc(reports: seq<Report>, r: Report)
    ensures CountRegistered(reports + [r]) == CountRegistered(reports) + if r.registered then 1 else 0
  {
    assert (reports + [r])[..|reports|] == reports;
  }

  lemma NothingSwept(db: Db, filled: Db, found: map<nat, Footprint>, cs: seq<Candidate>, probes: map<string, Probe>,
                     adoptAll: bool, now: int, fallback: string)
    requires filled == db.(rows := Backfill(db.rows, found, now))
    ensures Sweep(filled, cs[..0], probes, adoptAll, now, fallback) == Swept(filled, []) && CountRegistered([]) == 0
    ensures Run(db, found, cs, probes, adoptAll, now, fallback) == Sweep(filled, cs, probes, adoptAll, now, fallback)
  {
    hide Backfill;
  }

  lemma {:induction false} FailedStays(db: Db, cs: seq<Candidate>, k: nat, probes: map<string, Probe>, adoptAll: bool,
                                      now: int, fallback: string)
    requires k <= |cs| && Sweep(db, cs[..k], probes, adoptAll, now, fallback).Failed?
    ensures Sweep(db, cs, probes, adoptAll, now, fallback).Failed?
    decreases |cs| - k
  {
    if k == |cs| {
      assert cs[..k] == cs;
    } else {
      assert cs[..k + 1][..k] == cs[..k];
      FailedStays(db, cs, k + 1, probes, adoptAll, now, fallback);
    }
  }
}
