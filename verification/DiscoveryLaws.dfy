/** What discovery keeps, over one sweep and over any sequence of them. */
module DiscoveryLaws {
  import opened Bytes
  import opened DiscoverySpec
  import opened Ordering

  // ---------------------------------------------------------------------
  // One context
  // ---------------------------------------------------------------------

  /** Rows keep their place, id, name and context; any others come after them. */
  ghost predicate Extends(before: Db, after: Db) {
    |before.rows| <= |after.rows| && before.nextId <= after.nextId &&
    forall i :: 0 <= i < |before.rows| ==>
      after.rows[i].id == before.rows[i].id && after.rows[i].name == before.rows[i].name &&
      after.rows[i].context == before.rows[i].context
  }

  /** Rows added since `before` are for contexts that were absent, one row each. */
  ghost predicate NoSecondRow(before: Db, after: Db)
    requires |before.rows| <= |after.rows|
  {
    (forall i :: |before.rows| <= i < |after.rows| ==> !HasContext(before.rows, after.rows[i].context)) &&
    forall i, j :: |before.rows| <= i < j < |after.rows| ==> after.rows[i].context != after.rows[j].context
  }

  lemma {:induction false} FirstFreeIsFree(rows: seq<Cluster>, base: string, s: nat, fallback: string)
    requires 2 <= s <= LAST_SUFFIX + 1
    ensures (exists k :: s <= k <= LAST_SUFFIX && !NameTaken(rows, Suffixed(base, k))) ==>
      !NameTaken(rows, FirstFree(rows, base, s, fallback))
    decreases LAST_SUFFIX + 1 - s
  {
    hide NameTaken;
    hide Suffixed;
    if s <= LAST_SUFFIX {
      FirstFreeIsFree(rows, base, s + 1, fallback);
    }
  }

  /** A name is found whenever one of the ninety-nine is free. */
  lemma UniqueNameIsFree(rows: seq<Cluster>, base: string, fallback: string)
    requires FreeName(rows, base)
    ensures !NameTaken(rows, UniqueName(rows, base, fallback))
  {
    FirstFreeIsFree(rows, base, 2, fallback);
  }

  function Value(d: string): int {
    if d == "" then 0 else 10 * Value(d[..|d| - 1]) + (d[|d| - 1] as int - '0' as int)
  }

  lemma {:induction false} DigitsValue(n: nat)
    ensures Value(Digits(n)) == n
  {
    if n >= 10 {
      DigitsValue(n / 10);
      assert Digits(n)[..|Digits(n)| - 1] == Digits(n / 10);
    }
  }

  lemma SuffixedInjective(base: string, s: nat, t: nat)
    ensures Suffixed(base, s) == Suffixed(base, t) ==> s == t
    ensures Suffixed(base, s) != base
  {
    assert Suffixed(base, s)[|base| + 1..] == Digits(s);
    assert Suffixed(base, t)[|base| + 1..] == Digits(t);
    DigitsValue(s);
    DigitsValue(t);
    assert |Suffixed(base, s)| > |base|;
  }

  /** The names `_unique_name` tries, up to suffix `s`. */
  function Choices(base: string, s: nat): set<string> {
    if s < 2 then {base} else Choices(base, s - 1) + {Suffixed(base, s)}
  }

  lemma {:induction false} ChoicesDistinct(base: string, s: nat)
    requires s >= 1
    ensures |Choices(base, s)| == s
    ensures forall n :: n in Choices(base, s) ==> n == base || exists k :: 2 <= k <= s && n == Suffixed(base, k)
  {
    if s >= 2 {
      ChoicesDistinct(base, s - 1);
      SuffixedInjective(base, s, s);
      forall k | 2 <= k <= s - 1 ensures Suffixed(base, k) != Suffixed(base, s) {
        SuffixedInjective(base, k, s);
      }
      assert Suffixed(base, s) !in Choices(base, s - 1);
    }
  }

  /** Fewer than ninety-nine colliding names leave one free. */
  lemma FewCollisions(rows: seq<Cluster>, base: string)
    requires |set i | 0 <= i < |rows| && rows[i].name in Choices(base, LAST_SUFFIX) :: rows[i].name| < LAST_SUFFIX
    ensures FreeName(rows, base)
  {
    ChoicesDistinct(base, LAST_SUFFIX);
    var taken := set i | 0 <= i < |rows| && rows[i].name in Choices(base, LAST_SUFFIX) :: rows[i].name;
    if forall n :: n in Choices(base, LAST_SUFFIX) ==> n in taken {
      SubsetSize(Choices(base, LAST_SUFFIX), taken);
      assert false;
    }
    var n :| n in Choices(base, LAST_SUFFIX) && n !in taken;
    assert !NameTaken(rows, n);
  }

  lemma UpdateKeeps(db: Db, i: nat, row: Cluster)
    requires ValidDb(db) && i < |db.rows|
    requires row.id == db.rows[i].id && row.name == db.rows[i].name && row.context == db.rows[i].context
    ensures var after := db.(rows := db.rows[i := row]); ValidDb(after) && Extends(db, after) && NoSecondRow(db, after)
  {
  }

  lemma AppendKeeps(db: Db, row: Cluster)
    requires ValidDb(db) && row.id == db.nextId
    requires !NameTaken(db.rows, row.name) && !HasContext(db.rows, row.context)
    ensures var after := Db(db.rows + [row], db.nextId + 1);
      ValidDb(after) && Extends(db, after) && NoSecondRow(db, after)
  {
  }

  lemma SameKeeps(db: Db)
    ensures Extends(db, db) && NoSecondRow(db, db)
  {
  }

  lemma {:induction false} ProcessKeeps(db: Db, c: Candidate, p: Probe, adoptAll: bool, now: int, fallback: string)
    requires ValidDb(db) && Process(db, c, p, adoptAll, now, fallback).Done?
    ensures var after := Process(db, c, p, adoptAll, now, fallback).db;
      ValidDb(after) && Extends(db, after) && NoSecondRow(db, after)
  {
    hide ValidDb;
    hide Extends;
    hide NoSecondRow;
    hide NameTaken;
    hide HasContext;
    hide Existing;
    hide UniqueName;
    var at := Existing(db.rows, c.name);
    SameKeeps(db);
    if c.Adoptable() && at.Some? {
      UpdateKeeps(db, at.value, Apply(db.rows[at.value], c, p, now));
    } else if Registers(c, p, adoptAll) {
      AppendKeeps(db, Apply(NewRow(db.nextId, UniqueName(db.rows, c.name, fallback)), c, p, now));
    }
  }

  ghost predicate RowFor(rows: seq<Cluster>, context: string, id: Option<nat>) {
    exists i :: 0 <= i < |rows| && rows[i].context == context && id == Some(rows[i].id)
  }

  /** After a context is processed it has a row exactly when it had one before or
      met the rule for registration; and the report says which row. */
  lemma ProcessRegisters(db: Db, c: Candidate, p: Probe, adoptAll: bool, now: int, fallback: string)
    requires Process(db, c, p, adoptAll, now, fallback).Done?
    ensures var r := Process(db, c, p, adoptAll, now, fallback);
      (HasContext(r.db.rows, c.name) <==> HasContext(db.rows, c.name) || Registers(c, p, adoptAll)) &&
      (r.report.registered <==> c.Adoptable() && HasContext(r.db.rows, c.name)) &&
      (r.report.registered ==> RowFor(r.db.rows, c.name, r.report.clusterId))
  {
    var r := Process(db, c, p, adoptAll, now, fallback);
    match Existing(db.rows, c.name) {
      case Some(i) =>
        assert c.Adoptable() ==> r.db.rows[i].context == c.name;
        assert !c.Adoptable() ==> r.db == db;
      case None =>
        if Registers(c, p, adoptAll) {
          assert r.db.rows[|db.rows|].context == c.name;
        }
    }
  }

  /** Contexts other than the one processed come and go with nothing. */
  lemma ProcessLeavesOthers(db: Db, c: Candidate, p: Probe, adoptAll: bool, now: int, fallback: string, other: string)
    requires Process(db, c, p, adoptAll, now, fallback).Done? && other != c.name
    ensures HasContext(Process(db, c, p, adoptAll, now, fallback).db.rows, other) <==> HasContext(db.rows, other)
  {
    var after := Process(db, c, p, adoptAll, now, fallback).db;
    if i :| 0 <= i < |db.rows| && db.rows[i].context == other {
      assert after.rows[i].context == other;
    }
    if i :| 0 <= i < |after.rows| && after.rows[i].context == other {
      assert i < |db.rows| && db.rows[i].context == other;
    }
  }

  // ---------------------------------------------------------------------
  // What is written
  // ---------------------------------------------------------------------

  /** The name given: the context's own, else the first free suffix from 2 to 99, else the
      fallback. */
  lemma {:induction false} FirstFreeIs(rows: seq<Cluster>, base: string, s: nat, k: nat, fallback: string)
    requires 2 <= s <= k <= 99 && !NameTaken(rows, base + "-" + Digits(k))
    requires forall j :: s <= j < k ==> NameTaken(rows, Suffixed(base, j))
    ensures FirstFree(rows, base, s, fallback) == base + "-" + Digits(k)
    decreases k - s
  {
    hide NameTaken;
    if s < k {
      FirstFreeIs(rows, base, s + 1, k, fallback);
    }
  }

  lemma UniqueNameIs(rows: seq<Cluster>, base: string, k: nat, fallback: string)
    ensures !NameTaken(rows, base) ==> UniqueName(rows, base, fallback) == base
    ensures NameTaken(rows, base) && FirstFreeSuffix(rows, base, k) ==>
      UniqueName(rows, base, fallback) == base + "-" + Digits(k)
    ensures !FreeName(rows, base) ==> UniqueName(rows, base, fallback) == base + "-" + fallback
  {
    hide NameTaken;
    if FirstFreeSuffix(rows, base, k) {
      FirstFreeIs(rows, base, 2, k, fallback);
    }
    if !FreeName(rows, base) {
      NoneFreeFallsBack(rows, base, 2, fallback);
    }
  }

  predicate FirstFreeSuffix(rows: seq<Cluster>, base: string, k: nat) {
    2 <= k <= 99 && !NameTaken(rows, base + "-" + Digits(k)) &&
    forall j :: 2 <= j < k ==> NameTaken(rows, Suffixed(base, j))
  }

  /** The row a context leaves behind: all that was found, over what was there. */
  ghost predicate Shows(row: Cluster, before: Cluster, c: Candidate, p: Probe, now: int) {
    row.id == before.id && row.name == before.name && row.context == c.name && row.apiServer == c.apiServer &&
    row.kubeconfig == c.kubeconfig && row.provider == c.provider && row.region == c.region &&
    row.namespace == c.namespace && (row.status == if p.reachable then Active else Unreached) &&
    (row.version == if p.version.Some? then p.version else before.version) &&
    (row.namespaces == if p.namespaces != [] then p.namespaces else before.namespaces) &&
    (row.synced == if p.reachable then Some(now) else before.synced) &&
    row.meta.discovered && row.meta.source == Some(c.source) && row.meta.auth == Some(c.auth) &&
    (row.meta.components == if p.components != [] then p.components else before.meta.components) &&
    row.meta.hasDpf == Some(p.hasDpf) && row.meta.hasNico == Some(p.hasNico) &&
    row.meta.probeError == before.meta.probeError
  }

  /** One context, over the fields: which are only reported, which row is refreshed, when
      one is added, and what the row shows then. */
  lemma ProcessIs(db: Db, c: Candidate, p: Probe, adoptAll: bool, now: int, fallback: string)
    ensures var r := Process(db, c, p, adoptAll, now, fallback);
      var usable := c.kubeconfig.Some? && c.blockers == [];
      var state := if p.reachable then Reachable else Unreachable;
      var wanted := p.reachable && (p.hasBnk || p.hasDpf || p.hasNico || adoptAll);
      if !usable then r == Done(db, Report(c.name, Unusable, false, None))
      else if HasContext(db.rows, c.name) then
        exists i :: 0 <= i < |db.rows| && db.rows[i].context == c.name &&
          (forall j :: 0 <= j < i ==> db.rows[j].context != c.name) && r.Done? && |r.db.rows| == |db.rows| &&
          (forall j :: 0 <= j < |db.rows| && j != i ==> r.db.rows[j] == db.rows[j]) &&
          Shows(r.db.rows[i], db.rows[i], c, p, now) && r.db.nextId == db.nextId &&
          r.report == Report(c.name, state, true, Some(db.rows[i].id))
      else if !wanted then r == Done(db, Report(c.name, state, false, None))
      else
        var name := UniqueName(db.rows, c.name, fallback);
        if NameTaken(db.rows, name) then r == NameClash
        else
          r.Done? && |r.db.rows| == |db.rows| + 1 && r.db.rows[..|db.rows|] == db.rows &&
          Shows(r.db.rows[|db.rows|],
                Cluster(db.nextId, name, "", None, None, "", None, "default", Active, None, [], None,
                        Meta(false, None, None, [], None, None, false)), c, p, now) &&
          r.db.nextId == db.nextId + 1 && r.report == Report(c.name, state, true, Some(db.nextId))
  {
    hide UniqueName;
    hide NameTaken;
    var at := Existing(db.rows, c.name);
    FirstWithContext(db.rows, c.name);
    hide HasContext;
    hide Existing;
    if at.Some? {
      assert Shows(Apply(db.rows[at.value], c, p, now), db.rows[at.value], c, p, now);
    }
  }

  lemma {:induction false} FirstWithContext(rows: seq<Cluster>, context: string)
    ensures Existing(rows, context).Some? ==>
      forall j :: 0 <= j < Existing(rows, context).value ==> rows[j].context != context
  {
    if rows != [] && rows[0].context != context {
      FirstWithContext(rows[1..], context);
    }
  }

  /** The rule for registration, over the fields. */
  lemma RegistersExactlyWhen(c: Candidate, p: Probe, adoptAll: bool)
    ensures Registers(c, p, adoptAll) <==>
      c.kubeconfig.Some? && c.blockers == [] && p.reachable && (p.hasBnk || p.hasDpf || p.hasNico || adoptAll)
  {
  }

  /** A context that was not probed counts as unreachable. */
  lemma ProbeOfIs(probes: map<string, Probe>, name: string)
    ensures name in probes ==> ProbeOf(probes, name) == probes[name]
    ensures name !in probes ==> !ProbeOf(probes, name).reachable
  {
  }

  ghost predicate ReportsOn(r: Report, c: Candidate, p: Probe) {
    r.context == c.name &&
    (r.state == if c.kubeconfig.None? || c.blockers != [] then Unusable
                else if p.reachable then Reachable else Unreachable) &&
    (r.registered <==> r.clusterId.Some?)
  }

  lemma ProcessReports(db: Db, c: Candidate, p: Probe, adoptAll: bool, now: int, fallback: string)
    requires Process(db, c, p, adoptAll, now, fallback).Done?
    ensures ReportsOn(Process(db, c, p, adoptAll, now, fallback).report, c, p)
  {
    hide Existing;
    hide UniqueName;
    hide NameTaken;
  }

  /** A sweep reports every context in turn, by name and by what was found of it. */
  lemma {:induction false} SweepReports(db: Db, cs: seq<Candidate>, probes: map<string, Probe>, adoptAll: bool,
                                        now: int, fallback: string)
    requires Sweep(db, cs, probes, adoptAll, now, fallback).Swept?
    ensures var r := Sweep(db, cs, probes, adoptAll, now, fallback).reports;
      |r| == |cs| && forall i :: 0 <= i < |cs| ==> ReportsOn(r[i], cs[i], ProbeOf(probes, cs[i].name))
  {
    hide ProbeOf;
    hide Process;
    hide ReportsOn;
    if cs != [] {
      var init, last := cs[..|cs| - 1], cs[|cs| - 1];
      SweepReports(db, init, probes, adoptAll, now, fallback);
      var mid := Sweep(db, init, probes, adoptAll, now, fallback).db;
      ProcessReports(mid, last, ProbeOf(probes, last.name), adoptAll, now, fallback);
    }
  }

  /** Backfilling, row by row: only a row with a flag missing is probed; what was found is
      put on record, and a failed probe only leaves a mark. */
  lemma BackfillIs(rows: seq<Cluster>, found: map<nat, Footprint>, now: int, i: nat)
    requires i < |rows|
    ensures var row, after := rows[i], Backfill(rows, found, now)[i];
      if row.meta.hasDpf.Some? && row.meta.hasNico.Some? then after == row
      else if row.id !in found then after == row.(meta := row.meta.(probeError := true))
      else
        var f := found[row.id];
        after.meta.hasDpf == Some(f.hasDpf) && after.meta.hasNico == Some(f.hasNico) && !after.meta.probeError &&
        (after.meta.components == if f.components != [] then f.components else row.meta.components) &&
        (after.namespaces == if f.namespaces != [] then f.namespaces else row.namespaces) &&
        after.synced == Some(now) && after.(meta := row.meta, namespaces := row.namespaces, synced := row.synced) == row
  {
  }

  lemma {:induction false} NoneFreeFallsBack(rows: seq<Cluster>, base: string, s: nat, fallback: string)
    requires 2 <= s <= LAST_SUFFIX + 1
    requires forall k :: s <= k <= LAST_SUFFIX ==> NameTaken(rows, Suffixed(base, k))
    ensures FirstFree(rows, base, s, fallback) == base + "-" + fallback
    decreases LAST_SUFFIX + 1 - s
  {
    if s <= LAST_SUFFIX {
      NoneFreeFallsBack(rows, base, s + 1, fallback);
    }
  }

  /** Processing fails exactly when a context to be registered finds all ninety-nine
      names taken and the name of last resort too. */
  lemma ProcessFailsExactlyWhen(db: Db, c: Candidate, p: Probe, adoptAll: bool, now: int, fallback: string)
    ensures Process(db, c, p, adoptAll, now, fallback).NameClash? <==>
      Registers(c, p, adoptAll) && !HasContext(db.rows, c.name) &&
      !FreeName(db.rows, c.name) && NameTaken(db.rows, c.name + "-" + fallback)
  {
    if FreeName(db.rows, c.name) {
      UniqueNameIsFree(db.rows, c.name, fallback);
    } else {
      NoneFreeFallsBack(db.rows, c.name, 2, fallback);
    }
  }

  // ---------------------------------------------------------------------
  // One sweep
  // ---------------------------------------------------------------------

  lemma ExtendsTransitive(a: Db, b: Db, c: Db)
    requires Extends(a, b) && Extends(b, c) && NoSecondRow(a, b) && NoSecondRow(b, c)
    ensures Extends(a, c) && NoSecondRow(a, c)
  {
    forall i | |a.rows| <= i < |c.rows| ensures !HasContext(a.rows, c.rows[i].context) {
      if i < |b.rows| {
        assert c.rows[i].context == b.rows[i].context;
      } else {
        assert !HasContext(b.rows, c.rows[i].context);
        assert forall k :: 0 <= k < |a.rows| ==> b.rows[k].context == a.rows[k].context;
      }
    }
    forall i, j | |a.rows| <= i < j < |c.rows| ensures c.rows[i].context != c.rows[j].context {
      if i < |b.rows| <= j {
        assert b.rows[i].context == c.rows[i].context;
        assert !HasContext(b.rows, c.rows[j].context);
      }
    }
  }

  lemma {:induction false} SweepKeeps(db: Db, cs: seq<Candidate>, probes: map<string, Probe>, adoptAll: bool,
                                      now: int, fallback: string)
    requires ValidDb(db) && Sweep(db, cs, probes, adoptAll, now, fallback).Swept?
    ensures var after := Sweep(db, cs, probes, adoptAll, now, fallback).db;
      ValidDb(after) && Extends(db, after) && NoSecondRow(db, after)
  {
    hide Process;
    if cs != [] {
      var init, last := cs[..|cs| - 1], cs[|cs| - 1];
      SweepKeeps(db, init, probes, adoptAll, now, fallback);
      var mid := Sweep(db, init, probes, adoptAll, now, fallback).db;
      ProcessKeeps(mid, last, ProbeOf(probes, last.name), adoptAll, now, fallback);
      var after := Process(mid, last, ProbeOf(probes, last.name), adoptAll, now, fallback).db;
      ExtendsTransitive(db, mid, after);
    }
  }

  /** Registration, context by context: after a sweep a context has a row exactly
      when it had one or is a candidate that met the rule. */
  lemma {:induction false} SweepRegisters(db: Db, cs: seq<Candidate>, probes: map<string, Probe>, adoptAll: bool,
                                          now: int, fallback: string, context: string)
    requires Sweep(db, cs, probes, adoptAll, now, fallback).Swept?
    ensures HasContext(Sweep(db, cs, probes, adoptAll, now, fallback).db.rows, context) <==>
      HasContext(db.rows, context) ||
      exists i :: 0 <= i < |cs| && cs[i].name == context && Registers(cs[i], ProbeOf(probes, context), adoptAll)
  {
    hide Process;
    hide Registers;
    if cs != [] {
      var init, last := cs[..|cs| - 1], cs[|cs| - 1];
      SweepRegisters(db, init, probes, adoptAll, now, fallback, context);
      var mid := Sweep(db, init, probes, adoptAll, now, fallback).db;
      var p := ProbeOf(probes, last.name);
      assert forall i :: 0 <= i < |init| ==> init[i] == cs[i];
      if last.name == context {
        ProcessRegisters(mid, last, p, adoptAll, now, fallback);
        assert Registers(last, p, adoptAll) ==> cs[|cs| - 1].name == context;
      } else {
        ProcessLeavesOthers(mid, last, p, adoptAll, now, fallback, context);
      }
    }
  }

  /** A sweep that finds nothing new to register adds no row. */
  lemma {:induction false} SweepAddsNothing(db: Db, cs: seq<Candidate>, probes: map<string, Probe>, adoptAll: bool,
                                            now: int, fallback: string)
    requires ValidDb(db)
    requires forall i :: 0 <= i < |cs| && Registers(cs[i], ProbeOf(probes, cs[i].name), adoptAll) ==>
      HasContext(db.rows, cs[i].name)
    ensures var r := Sweep(db, cs, probes, adoptAll, now, fallback); r.Swept? && |r.db.rows| == |db.rows|
  {
    if cs != [] {
      var init, last := cs[..|cs| - 1], cs[|cs| - 1];
      assert forall i :: 0 <= i < |init| ==> init[i] == cs[i];
      SweepAddsNothing(db, init, probes, adoptAll, now, fallback);
      var mid := Sweep(db, init, probes, adoptAll, now, fallback).db;
      SweepKeeps(db, init, probes, adoptAll, now, fallback);
      if Registers(last, ProbeOf(probes, last.name), adoptAll) {
        assert HasContext(db.rows, last.name);
        var i :| 0 <= i < |db.rows| && db.rows[i].context == last.name;
        assert mid.rows[i].context == last.name;
      }
    }
  }

  lemma BackfillKeeps(db: Db, found: map<nat, Footprint>, now: int)
    ensures var after := db.(rows := Backfill(db.rows, found, now));
      Extends(db, after) && NoSecondRow(db, after) && (ValidDb(db) ==> ValidDb(after)) &&
      forall c :: HasContext(after.rows, c) <==> HasContext(db.rows, c)
  {
    var after := Backfill(db.rows, found, now);
    forall i | 0 <= i < |db.rows|
      ensures after[i].id == db.rows[i].id && after[i].name == db.rows[i].name && after[i].context == db.rows[i].context
    {
    }
    forall c ensures HasContext(after, c) <==> HasContext(db.rows, c) {
      if i :| 0 <= i < |after| && after[i].context == c {
        assert db.rows[i].context == c;
      }
      if i :| 0 <= i < |db.rows| && db.rows[i].context == c {
        assert after[i].context == c;
      }
    }
  }

  /** A sweep refreshes a known row in place without forgetting: identity stays, a
      version, namespace or component list once known is never emptied by a failed
      probe, and both footprint flags are on record afterwards. */
  lemma RefreshForgetsNothing(db: Db, c: Candidate, p: Probe, adoptAll: bool, now: int, fallback: string)
    requires c.Adoptable() && HasContext(db.rows, c.name)
    ensures var i := Existing(db.rows, c.name).value;
      var r := Process(db, c, p, adoptAll, now, fallback);
      r.Done? && |r.db.rows| == |db.rows| &&
      (forall k :: 0 <= k < |db.rows| && k != i ==> r.db.rows[k] == db.rows[k]) &&
      var before, after := db.rows[i], r.db.rows[i];
      after.id == before.id && after.name == before.name && !Stale(after) &&
      after.kubeconfig == c.kubeconfig && (after.status == Active <==> p.reachable) &&
      (before.version.Some? ==> after.version.Some?) &&
      (before.namespaces != [] ==> after.namespaces != []) &&
      (before.meta.components != [] ==> after.meta.components != []) &&
      (!p.reachable ==> after.synced == before.synced)
  {
  }

  /** Backfilling settles: a row whose footprint was found is left alone by every
      later backfill, and one whose probe failed stays due. */
  lemma BackfillSettles(rows: seq<Cluster>, found: map<nat, Footprint>, now: int, found': map<nat, Footprint>,
                        now': int, i: nat)
    requires i < |rows| && Stale(rows[i])
    ensures Stale(Backfill(rows, found, now)[i]) <==> rows[i].id !in found
    ensures rows[i].id in found ==>
      Backfill(Backfill(rows, found, now), found', now')[i] == Backfill(rows, found, now)[i]
  {
  }

  /** One `run`: no row is dropped, renamed or renumbered, and no context already
      present gets a second row. */
  lemma RunKeeps(db: Db, found: map<nat, Footprint>, cs: seq<Candidate>, probes: map<string, Probe>,
                 adoptAll: bool, now: int, fallback: string)
    requires ValidDb(db) && Run(db, found, cs, probes, adoptAll, now, fallback).Swept?
    ensures var after := Run(db, found, cs, probes, adoptAll, now, fallback).db;
      ValidDb(after) && Extends(db, after) && NoSecondRow(db, after)
  {
    var filled := db.(rows := Backfill(db.rows, found, now));
    BackfillKeeps(db, found, now);
    SweepKeeps(filled, cs, probes, adoptAll, now, fallback);
    ExtendsTransitive(db, filled, Run(db, found, cs, probes, adoptAll, now, fallback).db);
  }

  /** The registration rule over a whole `run`. */
  lemma RunRegisters(db: Db, found: map<nat, Footprint>, cs: seq<Candidate>, probes: map<string, Probe>,
                     adoptAll: bool, now: int, fallback: string, context: string)
    requires Run(db, found, cs, probes, adoptAll, now, fallback).Swept?
    ensures HasContext(Run(db, found, cs, probes, adoptAll, now, fallback).db.rows, context) <==>
      HasContext(db.rows, context) ||
      exists i :: 0 <= i < |cs| && cs[i].name == context && Registers(cs[i], ProbeOf(probes, context), adoptAll)
  {
    BackfillKeeps(db, found, now);
    SweepRegisters(db.(rows := Backfill(db.rows, found, now)), cs, probes, adoptAll, now, fallback, context);
  }

  /** Registering this context would fail on this table. */
  predicate Clashes(db: Db, c: Candidate, p: Probe, adoptAll: bool, fallback: string) {
    Registers(c, p, adoptAll) && !HasContext(db.rows, c.name) &&
    !FreeName(db.rows, c.name) && NameTaken(db.rows, c.name + "-" + fallback)
  }

  /** Candidate `i` clashes on the table as the candidates before it have left it. */
  ghost predicate FirstClash(db: Db, cs: seq<Candidate>, i: nat, probes: map<string, Probe>, adoptAll: bool, now: int,
                             fallback: string)
  {
    i < |cs| &&
    var before := Sweep(db, cs[..i], probes, adoptAll, now, fallback);
    before.Swept? && Clashes(before.db, cs[i], ProbeOf(probes, cs[i].name), adoptAll, fallback)
  }

  /** A whole sweep fails exactly when some candidate finds no name on the table as
      extended so far. */
  lemma {:induction false} SweepFailsExactlyWhen(db: Db, cs: seq<Candidate>, probes: map<string, Probe>,
                                                 adoptAll: bool, now: int, fallback: string)
    ensures Sweep(db, cs, probes, adoptAll, now, fallback).Failed? <==>
      exists i :: FirstClash(db, cs, i, probes, adoptAll, now, fallback)
  {
    hide Clashes;
    hide Process;
    if cs != [] {
      var n, last := |cs| - 1, cs[|cs| - 1];
      var init, p := cs[..n], ProbeOf(probes, last.name);
      SweepFailsExactlyWhen(db, init, probes, adoptAll, now, fallback);
      var before := Sweep(db, init, probes, adoptAll, now, fallback);
      assert forall i :: 0 <= i <= n ==> init[..i] == cs[..i];
      if before.Swept? {
        ClashFails(before.db, last, p, adoptAll, now, fallback);
        assert FirstClash(db, cs, n, probes, adoptAll, now, fallback) <==>
          Clashes(before.db, last, p, adoptAll, fallback);
      }
      if i: nat :| FirstClash(db, cs, i, probes, adoptAll, now, fallback) {
        assert i < n ==> FirstClash(db, init, i, probes, adoptAll, now, fallback);
      }
      if i: nat :| FirstClash(db, init, i, probes, adoptAll, now, fallback) {
        assert FirstClash(db, cs, i, probes, adoptAll, now, fallback);
      }
    }
  }

  lemma ClashFails(db: Db, c: Candidate, p: Probe, adoptAll: bool, now: int, fallback: string)
    ensures Process(db, c, p, adoptAll, now, fallback).NameClash? <==> Clashes(db, c, p, adoptAll, fallback)
  {
    ProcessFailsExactlyWhen(db, c, p, adoptAll, now, fallback);
  }

  /** And so does a whole run, on the table as backfilled: footprints name nothing. */
  lemma RunFailsExactlyWhen(db: Db, found: map<nat, Footprint>, cs: seq<Candidate>, probes: map<string, Probe>,
                            adoptAll: bool, now: int, fallback: string)
    ensures Run(db, found, cs, probes, adoptAll, now, fallback).Failed? <==>
      var filled := db.(rows := Backfill(db.rows, found, now));
      exists i :: FirstClash(filled, cs, i, probes, adoptAll, now, fallback)
  {
    SweepFailsExactlyWhen(db.(rows := Backfill(db.rows, found, now)), cs, probes, adoptAll, now, fallback);
  }

  /** Running again in an unchanged world adds no row, whatever the clock and the
      footprint probes did in between, and cannot fail. */
  lemma RunTwiceAddsNothing(db: Db, found: map<nat, Footprint>, found': map<nat, Footprint>, cs: seq<Candidate>,
                            probes: map<string, Probe>, adoptAll: bool, now: int, now': int, fallback: string)
    requires ValidDb(db) && Run(db, found, cs, probes, adoptAll, now, fallback).Swept?
    ensures var once := Run(db, found, cs, probes, adoptAll, now, fallback).db;
      var twice := Run(once, found', cs, probes, adoptAll, now', fallback);
      twice.Swept? && |twice.db.rows| == |once.rows| && Extends(once, twice.db)
  {
    var once := Run(db, found, cs, probes, adoptAll, now, fallback).db;
    RunKeeps(db, found, cs, probes, adoptAll, now, fallback);
    var filled := once.(rows := Backfill(once.rows, found', now'));
    BackfillKeeps(once, found', now');
    forall i | 0 <= i < |cs| && Registers(cs[i], ProbeOf(probes, cs[i].name), adoptAll)
      ensures HasContext(filled.rows, cs[i].name)
    {
      RunRegisters(db, found, cs, probes, adoptAll, now, fallback, cs[i].name);
    }
    SweepAddsNothing(filled, cs, probes, adoptAll, now', fallback);
    RunKeeps(once, found', cs, probes, adoptAll, now', fallback);
  }

  // ---------------------------------------------------------------------
  // Any sequence of sweeps, adoptions and operator actions
  // ---------------------------------------------------------------------

  datatype Action =
    | Discover(found: map<nat, Footprint>, cs: seq<Candidate>, probes: map<string, Probe>, adoptAll: bool, now: int,
               fallback: string)
    | Adopt(name: string, local: seq<Candidate>, probe: Probe, at: int, spare: string)
    | Rename(id: nat, newName: string)

  /** `next(c for c in discover_contexts() if c.name == name)`. */
  function Named(cs: seq<Candidate>, name: string): (r: Option<Candidate>)
    ensures r.Some? ==> r.value in cs && r.value.name == name
    ensures r.None? ==> forall c :: c in cs ==> c.name != name
  {
    if cs == [] then None else if cs[0].name == name then Some(cs[0]) else Named(cs[1..], name)
  }

  /** An operator's rename; the unique-name constraint refuses a name in use. */
  function Renamed(rows: seq<Cluster>, id: nat, newName: string): (r: seq<Cluster>)
    ensures |r| == |rows|
  {
    if NameTaken(rows, newName) then rows
    else seq(|rows|, i requires 0 <= i < |rows| => if rows[i].id == id then rows[i].(name := newName) else rows[i])
  }

  /** The committed table after an action; a failed one changes nothing. */
  function After(db: Db, a: Action): Db {
    match a
    case Discover(found, cs, probes, adoptAll, now, fallback) =>
      (match Run(db, found, cs, probes, adoptAll, now, fallback)
       case Failed => db
       case Swept(d, _) => d)
    case Adopt(name, local, probe, at, spare) =>
      (match Named(local, name)
       case None => db
       case Some(c) =>
         if !c.Adoptable() then db
         else match Process(db, c, probe, true, at, spare)
           case NameClash => db
           case Done(d, _) => d)
    case Rename(id, newName) => db.(rows := Renamed(db.rows, id, newName))
  }

  function AfterAll(db: Db, actions: seq<Action>): Db {
    if actions == [] then db else After(AfterAll(db, actions[..|actions| - 1]), actions[|actions| - 1])
  }

  /** What happens is taken in turn; a rename gives one row its new name unless another
      row has it already. */
  lemma HistoryIs(db: Db, actions: seq<Action>, a: Action)
    ensures AfterAll(db, []) == db && AfterAll(db, actions + [a]) == After(AfterAll(db, actions), a)
    ensures a.Rename? ==>
      var rows := After(db, a).rows;
      After(db, a).nextId == db.nextId && |rows| == |db.rows| && forall i :: 0 <= i < |rows| ==>
        rows[i] == if db.rows[i].id == a.id && forall j :: 0 <= j < |rows| ==> db.rows[j].name != a.newName
                   then db.rows[i].(name := a.newName) else db.rows[i]
    ensures a.Discover? ==>
      var r := Run(db, a.found, a.cs, a.probes, a.adoptAll, a.now, a.fallback);
      After(db, a) == if r.Failed? then db else r.db
  {
    assert (actions + [a])[..|actions|] == actions;
    hide Run;
    hide Process;
    hide Named;
  }

  /** Every row keeps its place, id and context for ever; contexts that were
      unique stay so, and names are always unique. */
  ghost predicate Preserved(before: Db, after: Db) {
    ValidDb(after) && |before.rows| <= |after.rows| &&
    (forall i :: 0 <= i < |before.rows| ==>
       after.rows[i].id == before.rows[i].id && after.rows[i].context == before.rows[i].context) &&
    NoSecondRow(before, after)
  }

  lemma ActionPreserves(db: Db, a: Action)
    requires ValidDb(db)
    ensures Preserved(db, After(db, a))
    ensures !a.Rename? ==> Extends(db, After(db, a))
  {
    match a
    case Discover(found, cs, probes, adoptAll, now, fallback) =>
      if Run(db, found, cs, probes, adoptAll, now, fallback).Swept? {
        RunKeeps(db, found, cs, probes, adoptAll, now, fallback);
      }
    case Adopt(name, local, probe, at, spare) =>
      var c := Named(local, name);
      if c.Some? && Process(db, c.value, probe, true, at, spare).Done? {
        ProcessKeeps(db, c.value, probe, true, at, spare);
      }
    case Rename(id, newName) => RenameKeeps(db, id, newName);
  }

  lemma RenameKeeps(db: Db, id: nat, newName: string)
    requires ValidDb(db)
    ensures Preserved(db, db.(rows := Renamed(db.rows, id, newName)))
  {
    if !NameTaken(db.rows, newName) {
      var r := Renamed(db.rows, id, newName);
      forall i, j | 0 <= i < j < |r| ensures r[i].id != r[j].id && r[i].name != r[j].name {
        assert db.rows[i].name != newName && db.rows[j].name != newName;
      }
    }
  }

  lemma PreservedTransitive(a: Db, b: Db, c: Db)
    requires Preserved(a, b) && Preserved(b, c)
    ensures Preserved(a, c)
  {
    forall i | |a.rows| <= i < |c.rows| ensures !HasContext(a.rows, c.rows[i].context) {
      if i < |b.rows| {
        assert c.rows[i].context == b.rows[i].context;
      } else {
        assert !HasContext(b.rows, c.rows[i].context);
        assert forall k :: 0 <= k < |a.rows| ==> b.rows[k].context == a.rows[k].context;
      }
    }
    forall i, j | |a.rows| <= i < j < |c.rows| ensures c.rows[i].context != c.rows[j].context {
      if i < |b.rows| <= j {
        assert b.rows[i].context == c.rows[i].context;
        assert !HasContext(b.rows, c.rows[j].context);
      }
    }
  }

  /** Safety over every history: whatever the probes answer and however clusters are
      renamed in between, discovery never drops a row, changes an id or a context,
      or registers a context that already has a row. */
  lemma {:induction false} HistoryPreserves(db: Db, actions: seq<Action>)
    requires ValidDb(db)
    ensures Preserved(db, AfterAll(db, actions))
  {
    if actions != [] {
      var init := actions[..|actions| - 1];
      HistoryPreserves(db, init);
      ActionPreserves(AfterAll(db, init), actions[|actions| - 1]);
      PreservedTransitive(db, AfterAll(db, init), AfterAll(db, actions));
    }
  }

  ghost predicate ContextsUnique(db: Db) {
    forall i, j :: 0 <= i < j < |db.rows| ==> db.rows[i].context != db.rows[j].context
  }

  /** In particular one row per context, once that holds, holds for ever. */
  lemma ContextsStayUnique(db: Db, actions: seq<Action>)
    requires ValidDb(db) && ContextsUnique(db)
    ensures ContextsUnique(AfterAll(db, actions))
  {
    HistoryPreserves(db, actions);
    var after := AfterAll(db, actions);
    forall i, j | 0 <= i < j < |after.rows| ensures after.rows[i].context != after.rows[j].context {
      if i < |db.rows| <= j {
        assert db.rows[i].context == after.rows[i].context;
        assert !HasContext(db.rows, after.rows[j].context);
      }
    }
  }
}
