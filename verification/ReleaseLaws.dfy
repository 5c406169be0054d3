/** When resolution does not depend on row order, and why observing never changes it. */
module ReleaseLaws {
  import opened Bytes
  import opened Ordering
  import opened ReleaseSpec

  // ---------------------------------------------------------------------
  // Row order
  // ---------------------------------------------------------------------

  ghost predicate SomeHit(rows: seq<Release>, q: Query, pass: Pass, intOf: string -> Option<int>) {
    exists r :: r in rows && Hits(r, q, pass, intOf)
  }

  /** The pass whose rows decide the answer, if any does. */
  ghost function Deciding(rows: seq<Release>, q: Query, intOf: string -> Option<int>): Option<Pass> {
    if SomeHit(rows, q, ByPrefix, intOf) then Some(ByPrefix)
    else if SomeHit(rows, q, ByRange, intOf) then Some(ByRange)
    else if SomeHit(rows, q, ByManifest, intOf) then Some(ByManifest)
    else None
  }

  /** At most one row answers in the deciding pass. */
  ghost predicate Unambiguous(rows: seq<Release>, q: Query, intOf: string -> Option<int>) {
    var pass := Deciding(rows, q, intOf);
    pass.Some? ==>
      forall r, s :: r in rows && s in rows && Hits(r, q, pass.value, intOf) && Hits(s, q, pass.value, intOf) ==> r == s
  }

  /** Row ids are primary keys. */
  ghost predicate DistinctIds(rows: seq<Release>) {
    forall r, s :: r in rows && s in rows && r.id == s.id ==> r == s
  }

  lemma {:induction false} ResolveDecides(rows: seq<Release>, q: Query, intOf: string -> Option<int>)
    ensures var pass := Deciding(rows, q, intOf);
      Resolve(rows, q, intOf) ==
        if pass.None? then None
        else
          var hit := FirstHit(rows, q, pass.value, intOf);
          if hit.Some? then Some(ToGaInfo(hit.value)) else None
    ensures Deciding(rows, q, intOf).Some? ==> FirstHit(rows, q, Deciding(rows, q, intOf).value, intOf).Some?
  {
  }

  // ---------------------------------------------------------------------
  // What each pass looks for
  // ---------------------------------------------------------------------

  /** A version is split at every dash and dot and nowhere else. */
  lemma {:induction false} SplitVersionIs(a: string, b: string, c: char)
    requires c == '-' || c == '.'
    ensures SplitVersion(a + [c] + b) == SplitVersion(a) + SplitVersion(b)
    ensures '-' !in a && '.' !in a ==> SplitVersion(a) == [a]
  {
    if a == "" {
      assert a + [c] + b == [c] + b;
      SplitVersionHead(c, b);
    } else {
      FirstOff(a, c, b);
      hide SplitVersion;
      SplitVersionIs(a[1..], b, c);
      SplitVersionHead(a[0], a[1..]);
      SplitVersionHead(a[0], a[1..] + [c] + b);
      GrowJoin(a[0], SplitVersion(a[1..]), SplitVersion(b));
    }
  }

  lemma FirstOff(a: string, c: char, b: string)
    requires a != ""
    ensures a == [a[0]] + a[1..] && a + [c] + b == [a[0]] + (a[1..] + [c] + b)
  {
  }

  lemma GrowJoin(c: char, ps: seq<string>, qs: seq<string>)
    requires |ps| > 0
    ensures [""] + (ps + qs) == [""] + ps + qs
    ensures [[c] + (ps + qs)[0]] + (ps + qs)[1..] == [[c] + ps[0]] + ps[1..] + qs
  {
  }

  lemma SplitVersionHead(c: char, s: string)
    ensures SplitVersion([c] + s) ==
      if c == '-' || c == '.' then [""] + SplitVersion(s)
      else [[c] + SplitVersion(s)[0]] + SplitVersion(s)[1..]
  {
    assert ([c] + s)[1..] == s;
  }

  /** The leading integers of a version's parts, as many as there are; 0 if there is none. */
  lemma {:induction false} ParseVersionIs(v: string, intOf: string -> Option<int>)
    ensures var parts, t := SplitVersion(StripV(v)), ParseVersion(v, intOf);
      if intOf(parts[0]).None? then t == [0]
      else
        |t| <= |parts| && (forall i :: 0 <= i < |t| ==> intOf(parts[i]) == Some(t[i])) &&
        (|t| < |parts| ==> intOf(parts[|t|]).None?)
  {
    hide StripV;
    hide SplitVersion;
  }

  /** What makes a row answer in each pass: a prefix the version goes on from with a dot;
      a range, its end excluded, that the version falls into; the manifest asked for. */
  ghost predicate Meets(r: Release, q: Query, pass: Pass, intOf: string -> Option<int>) {
    r.active &&
    match pass
    case ByPrefix => q.flo != "" && r.prefix != "" && StripV(r.prefix) + "." <= StripV(q.flo)
    case ByRange =>
      q.flo != "" && r.min != "" && r.max != "" &&
      var v := ParseVersion(StripV(q.flo), intOf);
      LexLe(ParseVersion(r.min, intOf), v) && !LexLe(ParseVersion(r.max, intOf), v)
    case ByManifest => q.manifest != "" && r.manifest == q.manifest
  }

  ghost predicate NoneMeets(rows: seq<Release>, q: Query, pass: Pass, intOf: string -> Option<int>) {
    forall i :: 0 <= i < |rows| ==> !Meets(rows[i], q, pass, intOf)
  }

  /** `info` is what `r` says. */
  ghost predicate Says(info: GaInfo, r: Release) {
    info.gaLabel == r.gaLabel && info.manifest == r.manifest && info.minK8s == r.minK8s &&
    info.maxK8s == r.maxK8s && info.source == r.source && info.url == r.url && info.releaseId == r.id
  }

  /** `info` comes from the first row, in the order listed, that the pass is met by. */
  ghost predicate FromFirst(info: GaInfo, rows: seq<Release>, q: Query, pass: Pass, intOf: string -> Option<int>) {
    exists i :: 0 <= i < |rows| && Meets(rows[i], q, pass, intOf) && Says(info, rows[i]) &&
      NoneMeets(rows[..i], q, pass, intOf)
  }

  lemma {:induction false} StripTwice(s: string)
    ensures StripV(StripV(s)) == StripV(s)
  {
  }

  lemma {:induction false} MeetsIsHit(r: Release, q: Query, pass: Pass, intOf: string -> Option<int>)
    ensures Meets(r, q, pass, intOf) <==> r.active && Hits(r, q, pass, intOf)
  {
    StripTwice(q.flo);
    hide StripV;
    hide ParseVersion;
  }

  lemma {:induction false} HitSnoc(rows: seq<Release>, r: Release, q: Query, pass: Pass, intOf: string -> Option<int>)
    ensures FirstHit(rows + [r], q, pass, intOf) ==
      if FirstHit(rows, q, pass, intOf).Some? then FirstHit(rows, q, pass, intOf)
      else if Hits(r, q, pass, intOf) then Some(r) else None
  {
    hide Hits;
    if rows == [] {
      assert rows + [r] == [r] && [r][1..] == [];
    } else {
      HitSnoc(rows[1..], r, q, pass, intOf);
      assert (rows + [r])[1..] == rows[1..] + [r];
    }
  }

  /** The pass over the active rows finds the first row of the table that meets it. */
  lemma {:induction false} PassFindsFirst(rows: seq<Release>, q: Query, pass: Pass, intOf: string -> Option<int>)
    ensures Found(FirstHit(Actives(rows), q, pass, intOf), rows, q, pass, intOf)
  {
    hide *;
    if rows == [] {
      NothingFound(rows, q, pass, intOf);
    } else {
      var init, last := rows[..|rows| - 1], rows[|rows| - 1];
      assert init + [last] == rows;
      ActivesSnoc(init, last);
      PassFindsFirst(init, q, pass, intOf);
      HitSnoc(Actives(init), last, q, pass, intOf);
      MeetsIsHit(last, q, pass, intOf);
      FoundNext(FirstHit(Actives(init), q, pass, intOf), init, last, q, pass, intOf);
    }
  }

  lemma {:induction false} NothingFound(rows: seq<Release>, q: Query, pass: Pass, intOf: string -> Option<int>)
    requires rows == []
    ensures Found(FirstHit(Actives(rows), q, pass, intOf), rows, q, pass, intOf)
  {
    hide Meets;
    hide Hits;
  }

  lemma ActivesSnoc(rows: seq<Release>, r: Release)
    ensures Actives(rows + [r]) == if r.active then Actives(rows) + [r] else Actives(rows)
  {
    assert (rows + [r])[..|rows|] == rows;
  }

  ghost predicate Found(hit: Option<Release>, rows: seq<Release>, q: Query, pass: Pass, intOf: string -> Option<int>) {
    if hit.Some? then FromFirst(ToGaInfo(hit.value), rows, q, pass, intOf) else NoneMeets(rows, q, pass, intOf)
  }

  lemma {:induction false} FoundNext(hit: Option<Release>, init: seq<Release>, last: Release, q: Query, pass: Pass,
                                     intOf: string -> Option<int>)
    requires Found(hit, init, q, pass, intOf)
    ensures hit.Some? ==> Found(hit, init + [last], q, pass, intOf)
    ensures hit.None? && Meets(last, q, pass, intOf) ==> Found(Some(last), init + [last], q, pass, intOf)
    ensures hit.None? && !Meets(last, q, pass, intOf) ==> Found(None, init + [last], q, pass, intOf)
  {
    hide Meets;
    var rows := init + [last];
    if hit.Some? {
      var info := ToGaInfo(hit.value);
      hide Says;
      var i :| 0 <= i < |init| && Meets(init[i], q, pass, intOf) && Says(info, init[i]) &&
        NoneMeets(init[..i], q, pass, intOf);
      assert rows[i] == init[i] && rows[..i] == init[..i];
    } else {
      assert rows[|init|] == last && rows[..|init|] == init;
    }
  }

  /** `resolve_ga` over the whole table: by prefix; failing that by range; failing that by
      manifest; and none exactly when no active row meets any of the three. */
  lemma {:induction false} ResolveIs(rows: seq<Release>, q: Query, intOf: string -> Option<int>)
    ensures var info := Resolve(Actives(rows), q, intOf);
      if !NoneMeets(rows, q, ByPrefix, intOf) then info.Some? && FromFirst(info.value, rows, q, ByPrefix, intOf)
      else if !NoneMeets(rows, q, ByRange, intOf) then info.Some? && FromFirst(info.value, rows, q, ByRange, intOf)
      else if !NoneMeets(rows, q, ByManifest, intOf)
      then info.Some? && FromFirst(info.value, rows, q, ByManifest, intOf)
      else info.None?
  {
    PassFindsFirst(rows, q, ByPrefix, intOf);
    PassFindsFirst(rows, q, ByRange, intOf);
    PassFindsFirst(rows, q, ByManifest, intOf);
    FirstMeets(rows, q, ByPrefix, intOf);
    FirstMeets(rows, q, ByRange, intOf);
    FirstMeets(rows, q, ByManifest, intOf);
    hide Meets;
    hide FirstHit;
    hide Actives;
    hide FromFirst;
    hide NoneMeets;
  }

  lemma {:induction false} FirstMeets(rows: seq<Release>, q: Query, pass: Pass, intOf: string -> Option<int>)
    ensures forall info :: FromFirst(info, rows, q, pass, intOf) ==> !NoneMeets(rows, q, pass, intOf)
  {
    hide Meets;
    hide Says;
  }

  /** Every row a sync adds: for a listed tag not on record, unseen by any query, under the
      label the tag resolves to. */
  ghost predicate IsSyncRow(r: Release, rows: seq<Release>, tags: seq<string>, intOf: string -> Option<int>) {
    r.min in tags && r.source == Oci && !r.active && r.manifest == "" && r.prefix == "" && r.max == "" &&
    r.minK8s == "" && r.maxK8s == "" && r.url == "" &&
    (forall x :: x in rows ==> !(x.source == Oci && x.min == r.min)) &&
    exists info :: Resolve(Actives(rows), Query(r.min, ""), intOf) == Some(info) && r.gaLabel == info.gaLabel
  }

  /** The tag resolves and is not on record. */
  ghost predicate NewToTable(tag: string, rows: seq<Release>, intOf: string -> Option<int>) {
    Resolve(Actives(rows), Query(tag, ""), intOf).Some? &&
    forall x :: x in rows ==> !(x.source == Oci && x.min == tag)
  }

  lemma {:induction false} SyncRowsAre(rows: seq<Release>, tags: seq<string>, nextId: nat,
                                       intOf: string -> Option<int>)
    ensures forall r :: r in SyncAdds(rows, tags, nextId, intOf) ==> IsSyncRow(r, rows, tags, intOf)
    ensures forall tag :: tag in tags && NewToTable(tag, rows, intOf) ==>
      exists r :: r in SyncAdds(rows, tags, nextId, intOf) && r.min == tag
  {
    hide Resolve;
    forall tag | tag in tags && NewToTable(tag, rows, intOf)
      ensures exists r :: r in SyncAdds(rows, tags, nextId, intOf) && r.min == tag
    {
      assert Recorded(rows, Oci, tag).None?;
      SyncRecords(rows, tags, nextId, intOf, tag);
    }
    if tags != [] {
      var init, last := tags[..|tags| - 1], tags[|tags| - 1];
      SyncRowsAre(rows, init, nextId, intOf);
      assert forall t :: t in init ==> t in tags;
    }
  }

  lemma SameMembers(rows: seq<Release>, other: seq<Release>)
    requires multiset(rows) == multiset(other)
    ensures forall r :: r in rows <==> r in other
  {
    forall r ensures r in rows <==> r in other {
      assert r in multiset(rows) <==> r in multiset(other);
    }
  }

  lemma {:induction false} SamePass(rows: seq<Release>, other: seq<Release>, q: Query, intOf: string -> Option<int>)
    requires forall r :: r in rows <==> r in other
    ensures Deciding(rows, q, intOf) == Deciding(other, q, intOf)
  {
    assert forall pass :: SomeHit(rows, q, pass, intOf) == SomeHit(other, q, pass, intOf);
  }

  /** One row moved to the front. */
  lemma MoveToFront(rows: seq<Release>, r: Release) returns (other: seq<Release>)
    requires r in rows
    ensures multiset(other) == multiset(rows) && other != [] && other[0] == r
  {
    var i :| 0 <= i < |rows| && rows[i] == r;
    other := [r] + rows[..i] + rows[i + 1..];
    assert rows == rows[..i] + [r] + rows[i + 1..];
  }

  ghost predicate OrderFree(rows: seq<Release>, q: Query, intOf: string -> Option<int>) {
    forall other :: multiset(other) == multiset(rows) ==> Resolve(other, q, intOf) == Resolve(rows, q, intOf)
  }

  /** A query resolves the same in every row order exactly when the deciding pass has
      a single row for it. */
  lemma {:induction false} OrderFreeExactlyWhen(rows: seq<Release>, q: Query, intOf: string -> Option<int>)
    requires DistinctIds(rows)
    ensures OrderFree(rows, q, intOf) <==> Unambiguous(rows, q, intOf)
  {
    var pass := Deciding(rows, q, intOf);
    if Unambiguous(rows, q, intOf) {
      forall other | multiset(other) == multiset(rows) ensures Resolve(other, q, intOf) == Resolve(rows, q, intOf) {
        SameMembers(other, rows);
        SamePass(other, rows, q, intOf);
        ResolveDecides(rows, q, intOf);
        ResolveDecides(other, q, intOf);
        hide Resolve;
        hide Hits;
        hide Deciding;
        hide FirstHit;
      }
    } else {
      hide Hits;
      var r, s :| r in rows && s in rows && Hits(r, q, pass.value, intOf) && Hits(s, q, pass.value, intOf) && r != s;
      var rFirst := MoveToFront(rows, r);
      var sFirst := MoveToFront(rows, s);
      FrontDecides(rows, rFirst, q, intOf);
      FrontDecides(rows, sFirst, q, intOf);
      assert Resolve(rFirst, q, intOf) != Resolve(sFirst, q, intOf);
    }
  }

  lemma {:induction false} FrontDecides(rows: seq<Release>, front: seq<Release>, q: Query, intOf: string -> Option<int>)
    requires multiset(front) == multiset(rows) && front != []
    requires Deciding(rows, q, intOf).Some? && Hits(front[0], q, Deciding(rows, q, intOf).value, intOf)
    ensures Resolve(front, q, intOf) == Some(ToGaInfo(front[0]))
  {
    SameMembers(front, rows);
    SamePass(front, rows, q, intOf);
    ResolveDecides(front, q, intOf);
  }

  // ---------------------------------------------------------------------
  // A registry that never is ambiguous
  // ---------------------------------------------------------------------

  /** Two prefixes neither of which continues the other past a dot. */
  predicate PrefixesApart(p: string, q: string) {
    StripV(p) != StripV(q) && !PrefixMatches(q, p) && !PrefixMatches(p, q)
  }

  lemma StripVDot(s: string)
    ensures StripV(StripV(s) + ".") == StripV(s) + "."
  {
    StripVHead(s);
    assert StripV(s) != "" ==> (StripV(s) + ".")[0] == StripV(s)[0];
  }

  lemma {:induction false} StripVHead(s: string)
    ensures StripV(s) != "" ==> StripV(s)[0] != 'v'
  {
    if s != "" && s[0] == 'v' {
      StripVHead(s[1..]);
    }
  }

  /** Some version matches both prefixes exactly when they are equal or one continues
      the other. */
  lemma PrefixesClashExactlyWhen(p: string, q: string)
    ensures (exists v :: PrefixMatches(v, p) && PrefixMatches(v, q)) <==> !PrefixesApart(p, q)
  {
    var a, b := StripV(p) + ".", StripV(q) + ".";
    StripVDot(p);
    StripVDot(q);
    forall v | PrefixMatches(v, p) && PrefixMatches(v, q) ensures !PrefixesApart(p, q) {
      CommonPrefixes(a, b, StripV(v));
      if a <= b {
        NestedDots(StripV(p), StripV(q));
      } else {
        NestedDots(StripV(q), StripV(p));
      }
    }
    if !PrefixesApart(p, q) {
      if PrefixMatches(p, q) {
        assert PrefixMatches(a, p) && PrefixMatches(a, q);
      } else {
        assert PrefixMatches(b, p) && PrefixMatches(b, q);
      }
    }
  }

  lemma CommonPrefixes(a: string, b: string, s: string)
    requires a <= s && b <= s
    ensures a <= b || b <= a
  {
    if |a| <= |b| {
      assert a == s[..|a|] == b[..|a|];
    } else {
      assert b == s[..|b|] == a[..|b|];
    }
  }

  lemma NestedDots(x: string, y: string)
    requires x + "." <= y + "."
    ensures x == y || x + "." <= y
  {
    if |x| == |y| {
      assert x == (x + ".")[..|x|] == (y + ".")[..|x|] == y;
    } else {
      assert (y + ".")[..|x| + 1] == y[..|x| + 1];
    }
  }

  /** No version lies in both half-open ranges. */
  ghost predicate RangesDisjoint(r: Release, s: Release, intOf: string -> Option<int>) {
    forall v: seq<int> :: !(InRange(v, r, intOf) && InRange(v, s, intOf))
  }

  predicate InRange(v: seq<int>, r: Release, intOf: string -> Option<int>) {
    LexLe(ParseVersion(r.min, intOf), v) && LexLt(v, ParseVersion(r.max, intOf))
  }

  /** Two rows that no query can confuse within a pass. */
  ghost predicate Separate(r: Release, s: Release, intOf: string -> Option<int>) {
    (r.prefix != "" && s.prefix != "" ==> PrefixesApart(r.prefix, s.prefix)) &&
    (r.min != "" && r.max != "" && s.min != "" && s.max != "" ==> RangesDisjoint(r, s, intOf)) &&
    (r.manifest != "" && s.manifest != "" ==> r.manifest != s.manifest)
  }

  lemma {:induction false} SeparateNeverBothHit(r: Release, s: Release, q: Query, pass: Pass,
                                                intOf: string -> Option<int>)
    requires Separate(r, s, intOf)
    ensures !(Hits(r, q, pass, intOf) && Hits(s, q, pass, intOf))
  {
    match pass
    case ByPrefix =>
      PrefixesClashExactlyWhen(r.prefix, s.prefix);
      var v := StripV(q.flo);
      assert PrefixesApart(r.prefix, s.prefix) ==> !(PrefixMatches(v, r.prefix) && PrefixMatches(v, s.prefix));
    case ByRange =>
      var v := ParseVersion(StripV(q.flo), intOf);
      assert r.min != "" && r.max != "" && s.min != "" && s.max != "" ==>
        !(InRange(v, r, intOf) && InRange(v, s, intOf));
    case ByManifest =>
  }

  /** With unrelated prefixes, disjoint ranges and distinct manifests, every query
      resolves the same in every order of the active rows. */
  lemma {:induction false} SeparateRowsOrderFree(rows: seq<Release>, q: Query, intOf: string -> Option<int>)
    requires DistinctIds(rows)
    requires forall r, s :: r in rows && s in rows && r != s ==> Separate(r, s, intOf)
    ensures OrderFree(rows, q, intOf)
  {
    forall pass, r, s | r in rows && s in rows && Hits(r, q, pass, intOf) && Hits(s, q, pass, intOf) ensures r == s {
      if r != s {
        SeparateNeverBothHit(r, s, q, pass, intOf);
      }
    }
    hide Hits;
    OrderFreeExactlyWhen(rows, q, intOf);
  }

  // ---------------------------------------------------------------------
  // Observing
  // ---------------------------------------------------------------------

  ghost predicate AllInactive(rows: seq<Release>) {
    forall r :: r in rows ==> !r.active
  }

  lemma {:induction false} InactiveInvisible(rows: seq<Release>, more: seq<Release>)
    requires AllInactive(more)
    ensures Actives(rows + more) == Actives(rows)
  {
    if more == [] {
      assert rows + more == rows;
    } else {
      var init, last := more[..|more| - 1], more[|more| - 1];
      assert last in more;
      assert forall r :: r in init ==> r in more;
      InactiveInvisible(rows, init);
      assert (rows + more)[..|rows + more| - 1] == rows + init;
      assert (rows + more)[|rows + more| - 1] == last;
    }
  }

  lemma {:induction false} SyncAddsInactive(rows: seq<Release>, tags: seq<string>, nextId: nat,
                                            intOf: string -> Option<int>)
    ensures AllInactive(SyncAdds(rows, tags, nextId, intOf))
    ensures forall r :: r in SyncAdds(rows, tags, nextId, intOf) ==>
      r.source == Oci && r.min in tags && Recorded(rows, Oci, r.min).None?
  {
    hide Resolve;
    if tags != [] {
      SyncAddsInactive(rows, tags[..|tags| - 1], nextId, intOf);
      assert tags == tags[..|tags| - 1] + [tags[|tags| - 1]];
    }
  }

  /** Recording tags changes no answer to any question. */
  lemma {:induction false} SyncKeepsAnswers(rows: seq<Release>, tags: seq<string>, nextId: nat, q: Query,
                                            intOf: string -> Option<int>)
    ensures Resolve(Actives(rows + SyncAdds(rows, tags, nextId, intOf)), q, intOf) == Resolve(Actives(rows), q, intOf)
  {
    hide Resolve;
    SyncAddsInactive(rows, tags, nextId, intOf);
    InactiveInvisible(rows, SyncAdds(rows, tags, nextId, intOf));
  }

  /** Nor does recording an observed version. */
  lemma {:induction false} ObservedKeepsAnswers(rows: seq<Release>, id: nat, v: string, q: Query,
                                                intOf: string -> Option<int>)
    ensures Resolve(Actives(rows + [ObservedRow(id, v)]), q, intOf) == Resolve(Actives(rows), q, intOf)
  {
    hide Resolve;
    InactiveInvisible(rows, [ObservedRow(id, v)]);
  }

  lemma {:induction false} SyncRecords(rows: seq<Release>, tags: seq<string>, nextId: nat,
                                       intOf: string -> Option<int>, tag: string)
    requires tag in tags && Resolve(Actives(rows), Query(tag, ""), intOf).Some? && Recorded(rows, Oci, tag).None?
    ensures exists r :: r in SyncAdds(rows, tags, nextId, intOf) && r.min == tag
  {
    hide Resolve;
    var init, last := tags[..|tags| - 1], tags[|tags| - 1];
    assert tags == init + [last];
    var adds := SyncAdds(rows, tags, nextId, intOf);
    if last == tag {
      assert adds[|adds| - 1].min == tag;
    } else {
      SyncRecords(rows, init, nextId, intOf, tag);
      var r :| r in SyncAdds(rows, init, nextId, intOf) && r.min == tag;
      assert r in adds;
    }
  }

  /** The positions of the tags that resolve. */
  function Matched(rows: seq<Release>, tags: seq<string>, intOf: string -> Option<int>): set<nat> {
    set i: nat | i < |tags| && Resolve(Actives(rows), Query(tags[i], ""), intOf).Some?
  }

  lemma {:induction false} MatchedIs(rows: seq<Release>, tags: seq<string>, intOf: string -> Option<int>,
                                     known: set<nat>)
    requires forall k: nat :: k in known <==> k < |tags| && Resolve(Actives(rows), Query(tags[k], ""), intOf).Some?
    ensures known == Matched(rows, tags, intOf)
  {
    hide Resolve;
  }

  /** Fresh ids, in the order the rows were added. */
  ghost predicate NumberedFrom(adds: seq<Release>, id: nat) {
    forall k :: 0 <= k < |adds| ==> adds[k].id == id + k
  }

  lemma NumberedAppend(adds: seq<Release>, row: seq<Release>, id: nat)
    requires NumberedFrom(adds, id) && (row == [] || (|row| == 1 && row[0].id == id + |adds|))
    ensures NumberedFrom(adds + row, id)
  {
  }

  lemma {:induction false} SyncIds(rows: seq<Release>, tags: seq<string>, nextId: nat, intOf: string -> Option<int>)
    ensures NumberedFrom(SyncAdds(rows, tags, nextId, intOf), nextId)
  {
    hide Resolve;
    hide Recorded;
    if tags != [] {
      var before := SyncAdds(rows, tags[..|tags| - 1], nextId, intOf);
      SyncIds(rows, tags[..|tags| - 1], nextId, intOf);
      NumberedAppend(before, RowsForTag(rows, tags[|tags| - 1], nextId + |before|, intOf), nextId);
    }
  }

  lemma {:induction false} NoTagsNoRows(rows: seq<Release>, tags: seq<string>, nextId: nat,
                                        intOf: string -> Option<int>)
    requires tags == []
    ensures SyncAdds(rows, tags, nextId, intOf) == []
  {
  }

  lemma {:induction false} SyncStep(rows: seq<Release>, tags: seq<string>, i: nat, nextId: nat,
                                    intOf: string -> Option<int>)
    requires i < |tags|
    ensures var before := SyncAdds(rows, tags[..i], nextId, intOf);
      SyncAdds(rows, tags[..i + 1], nextId, intOf) == before + RowsForTag(rows, tags[i], nextId + |before|, intOf)
  {
    hide RowsForTag;
    assert tags[..i + 1][..i] == tags[..i];
  }

  lemma {:induction false} SyncAddsNone(rows: seq<Release>, tags: seq<string>, nextId: nat,
                                        intOf: string -> Option<int>)
    requires forall t :: t in tags && Resolve(Actives(rows), Query(t, ""), intOf).Some? ==> Recorded(rows, Oci, t).Some?
    ensures SyncAdds(rows, tags, nextId, intOf) == []
  {
    hide Resolve;
    if tags != [] {
      var init := tags[..|tags| - 1];
      assert tags == init + [tags[|tags| - 1]];
      SyncAddsNone(rows, init, nextId, intOf);
    }
  }

  /** Syncing the same tags again adds nothing, repeated tags or not. */
  lemma {:induction false} SyncTwiceAddsNothing(rows: seq<Release>, tags: seq<string>, nextId: nat, nextId': nat,
                                                intOf: string -> Option<int>)
    ensures SyncAdds(rows + SyncAdds(rows, tags, nextId, intOf), tags, nextId', intOf) == []
  {
    var after := rows + SyncAdds(rows, tags, nextId, intOf);
    forall t | t in tags && Resolve(Actives(after), Query(t, ""), intOf).Some? ensures Recorded(after, Oci, t).Some? {
      SyncKeepsAnswers(rows, tags, nextId, Query(t, ""), intOf);
      if Recorded(rows, Oci, t).Some? {
        assert Recorded(rows, Oci, t).value in after;
      } else {
        SyncRecords(rows, tags, nextId, intOf, t);
        SyncAddsInactive(rows, tags, nextId, intOf);
        var r :| r in SyncAdds(rows, tags, nextId, intOf) && r.min == t;
        assert r in after && r.source == Oci;
      }
    }
    hide Resolve;
    hide SyncAdds;
    SyncAddsNone(after, tags, nextId', intOf);
  }

  /** At most one row records each tag. */
  ghost predicate OneRowPerTag(adds: seq<Release>) {
    forall i, j :: 0 <= i < j < |adds| ==> adds[i].min != adds[j].min
  }

  /** A tag that this call would record. */
  predicate NewTag(rows: seq<Release>, tag: string, intOf: string -> Option<int>) {
    Resolve(Actives(rows), Query(tag, ""), intOf).Some? && Recorded(rows, Oci, tag).None?
  }

  ghost predicate NoNewTagTwice(rows: seq<Release>, tags: seq<string>, intOf: string -> Option<int>) {
    forall i, j :: 0 <= i < j < |tags| && tags[i] == tags[j] ==> !NewTag(rows, tags[i], intOf)
  }

  lemma RowAppended(adds: seq<Release>, row: Release)
    ensures OneRowPerTag(adds + [row]) <==>
      OneRowPerTag(adds) && forall i :: 0 <= i < |adds| ==> adds[i].min != row.min
  {
    var all := adds + [row];
    assert all[|adds|] == row && forall i :: 0 <= i < |adds| ==> all[i] == adds[i];
  }

  lemma {:induction false} TagAppended(rows: seq<Release>, tags: seq<string>, tag: string, intOf: string -> Option<int>)
    ensures NoNewTagTwice(rows, tags + [tag], intOf) <==>
      NoNewTagTwice(rows, tags, intOf) && (NewTag(rows, tag, intOf) ==> tag !in tags)
  {
    hide NewTag;
    var all := tags + [tag];
    assert all[|tags|] == tag && forall i :: 0 <= i < |tags| ==> all[i] == tags[i];
    if NoNewTagTwice(rows, all, intOf) && tag in tags {
      var k :| 0 <= k < |tags| && tags[k] == tag;
      assert all[k] == all[|tags|];
    }
  }

  /** The promise of at most one row per tag holds within a call exactly when no new
      tag is listed twice: rows added earlier in the call are not looked at. */
  lemma {:induction false} OneRowPerTagExactlyWhen(rows: seq<Release>, tags: seq<string>, nextId: nat,
                                                   intOf: string -> Option<int>)
    ensures OneRowPerTag(SyncAdds(rows, tags, nextId, intOf)) <==> NoNewTagTwice(rows, tags, intOf)
  {
    hide Resolve;
    if tags != [] {
      var init, tag := tags[..|tags| - 1], tags[|tags| - 1];
      var before, adds := SyncAdds(rows, init, nextId, intOf), SyncAdds(rows, tags, nextId, intOf);
      OneRowPerTagExactlyWhen(rows, init, nextId, intOf);
      assert tags == init + [tag];
      TagAppended(rows, init, tag, intOf);
      if NewTag(rows, tag, intOf) {
        assert adds == before + [adds[|before|]] && adds[|before|].min == tag;
        RowAppended(before, adds[|before|]);
        RecordedOnlyIfListed(rows, init, nextId, intOf, tag);
      } else {
        assert adds == before;
      }
    }
  }

  /** A new tag has a row among the additions exactly when it is listed. */
  lemma {:induction false} RecordedOnlyIfListed(rows: seq<Release>, tags: seq<string>, nextId: nat,
                                                intOf: string -> Option<int>,
                                                tag: string)
    requires NewTag(rows, tag, intOf)
    ensures var adds := SyncAdds(rows, tags, nextId, intOf);
      tag in tags <==> exists i :: 0 <= i < |adds| && adds[i].min == tag
  {
    hide Resolve;
    var adds := SyncAdds(rows, tags, nextId, intOf);
    if tag in tags {
      SyncRecords(rows, tags, nextId, intOf, tag);
      var r :| r in adds && r.min == tag;
      var i :| 0 <= i < |adds| && adds[i] == r;
    } else {
      SyncAddsInactive(rows, tags, nextId, intOf);
      forall i | 0 <= i < |adds| ensures adds[i].min != tag {
        assert adds[i] in adds;
      }
    }
  }
}
