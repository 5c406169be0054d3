/** `ReleaseRegistryService` and `parse_version`. */
module Releases {
  import opened Bytes
  import opened ReleaseSpec
  import opened ReleaseLaws

  /** `parse_version`: integers up to the first part that is not one. */
  method ParseVersionParts(v: string, intOf: string -> Option<int>) returns (t: seq<int>)
    ensures t == ParseVersion(v, intOf)
  {
    var parts := SplitVersion(StripV(v));
    t := [];
    for i := 0 to |parts|
      invariant t + Numbers(parts[i..], intOf) == Numbers(parts, intOf)
    {
      var n := intOf(parts[i]);
      if n.None? {
        assert t + [] == t;
        break;
      }
      assert parts[i..][1..] == parts[i + 1..];
      t := t + [n.value];
    }
    assert t == Numbers(parts, intOf);
    if t == [] {
      t := [0];
    }
  }

  /** Ids are distinct, and the next one is new. */
  ghost predicate Keyed(rows: seq<Release>, nextId: nat) {
    forall i, j :: 0 <= i < |rows| && 0 <= j < |rows| ==>
      rows[i].id < nextId && (rows[i].id == rows[j].id ==> i == j)
  }

  lemma ActivesDistinct(rows: seq<Release>, nextId: nat)
    requires Keyed(rows, nextId)
    ensures DistinctIds(Actives(rows))
  {
    forall r, s | r in Actives(rows) && s in Actives(rows) && r.id == s.id ensures r == s {
      assert r in rows && s in rows;
    }
  }

  class ReleaseRegistryService {
    var rows: seq<Release>   // the flushed table
    var nextId: nat
    const intOf: string -> Option<int>

    ghost predicate Valid()
      reads this
    {
      Keyed(rows, nextId)
    }

    /** Over a table whose primary key is what one is. */
    constructor (rows: seq<Release>, nextId: nat, intOf: string -> Option<int>)
      requires Keyed(rows, nextId)
      ensures Valid() && this.rows == rows && this.nextId == nextId && this.intOf == intOf
    {
      this.rows, this.nextId, this.intOf := rows, nextId, intOf;
    }

    /** Whether the answer depends on the order the database lists the rows in. */
    lemma AnswerOrderFree(q: Query)
      requires Valid()
      ensures OrderFree(Actives(rows), q, intOf) <==> Unambiguous(Actives(rows), q, intOf)
    {
      ActivesDistinct(rows, nextId);
      OrderFreeExactlyWhen(Actives(rows), q, intOf);
    }

    /** `resolve_ga`: reads only. The answer is that of the first active row met by prefix;
        where there is none, by range; failing that too, by manifest. */
    method ResolveGa(q: Query) returns (info: Option<GaInfo>)
      ensures info == Resolve(Actives(rows), q, intOf)
      ensures
        if !NoneMeets(rows, q, ByPrefix, intOf) then info.Some? && FromFirst(info.value, rows, q, ByPrefix, intOf)
        else if !NoneMeets(rows, q, ByRange, intOf) then info.Some? && FromFirst(info.value, rows, q, ByRange, intOf)
        else if !NoneMeets(rows, q, ByManifest, intOf)
        then info.Some? && FromFirst(info.value, rows, q, ByManifest, intOf)
        else info.None?
    {
      ResolveIs(rows, q, intOf);
      hide NoneMeets;
      hide FromFirst;
      hide Actives;
      hide Hits;
      hide FirstHit;
      var actives := Actives(rows);
      var hit: Option<Release>;
      if q.flo != "" {
        hit := Scan(actives, q, ByPrefix);
        if hit.Some? {
          return Some(ToGaInfo(hit.value));
        }
        hit := Scan(actives, q, ByRange);
        if hit.Some? {
          return Some(ToGaInfo(hit.value));
        }
      } else {
        NoVersionNoHit(actives, q, intOf);
      }
      if q.manifest != "" {
        hit := Scan(actives, q, ByManifest);
        if hit.Some? {
          return Some(ToGaInfo(hit.value));
        }
      } else {
        NoManifestNoHit(actives, q, intOf);
      }
      return None;
    }

    method Scan(actives: seq<Release>, q: Query, pass: Pass) returns (hit: Option<Release>)
      ensures hit == FirstHit(actives, q, pass, intOf)
    {
      for i := 0 to |actives|
        invariant FirstHit(actives, q, pass, intOf) == FirstHit(actives[i..], q, pass, intOf)
      {
        if Hits(actives[i], q, pass, intOf) {
          return Some(actives[i]);
        }
        assert actives[i..][1..] == actives[i + 1..];
      }
      hit := None;
    }

    /** `get_or_create_observed`: one row per observed version, and no question is
        answered differently for it. */
    method GetOrCreateObserved(v: string) returns (id: nat)
      requires Valid()
      modifies this`rows, this`nextId
      ensures Valid()
      ensures Recorded(old(rows), Observed, v).Some? ==> rows == old(rows) && nextId == old(nextId)
      ensures Recorded(old(rows), Observed, v).None? ==>
        rows == old(rows) + [ObservedRow(old(nextId), v)] && nextId == old(nextId) + 1 &&
        var row := rows[|old(rows)|];
        row.id == old(nextId) && row.gaLabel == "Observed FLO " + v && row.min == v && row.source == Observed &&
        !row.active && row.prefix == "" && row.max == "" && row.manifest == ""
      ensures Recorded(rows, Observed, v).Some? && Recorded(rows, Observed, v).value.id == id
      ensures forall q :: Resolve(Actives(rows), q, intOf) == Resolve(Actives(old(rows)), q, intOf)
    {
      hide Resolve;
      var existing := Recorded(rows, Observed, v);
      if existing.Some? {
        return existing.value.id;
      }
      forall q ensures Resolve(Actives(rows + [ObservedRow(nextId, v)]), q, intOf) == Resolve(Actives(rows), q, intOf) {
        ObservedKeepsAnswers(rows, nextId, v, q, intOf);
      }
      RecordedAppended(rows, ObservedRow(nextId, v));
      id := nextId;
      rows, nextId := rows + [ObservedRow(nextId, v)], nextId + 1;
    }

    /** One tag: is there a release for it, and the row to add, if any. */
    method MatchTag(tag: string, id: nat) returns (known: bool, row: seq<Release>)
      ensures row == RowsForTag(rows, tag, id, intOf)
      ensures known <==> Resolve(Actives(rows), Query(tag, ""), intOf).Some?
      ensures |row| <= if known then 1 else 0
    {
      var info := ResolveGa(Query(tag, ""));
      if info.None? {
        return false, [];
      }
      if Recorded(rows, Oci, tag).Some? {
        return true, [];
      }
      return true, [OciRow(id, info.value.gaLabel, tag)];
    }

    /** The tag loop: each is matched, and recorded unless it already is. */
    method CollectTags(tags: seq<string>) returns (matched: nat, unmatched: nat, pending: seq<Release>)
      ensures pending == SyncAdds(rows, tags, nextId, intOf)
      ensures NumberedFrom(pending, nextId)
      ensures matched == |Matched(rows, tags, intOf)| && matched + unmatched == |tags| && |pending| <= matched
    {
      hide *;
      NoTagsNoRows(rows, tags[..0], nextId, intOf);
      ghost var known: set<nat> := {};
      matched, unmatched, pending := 0, 0, [];
      for i := 0 to |tags|
        invariant pending == SyncAdds(rows, tags[..i], nextId, intOf)
        invariant matched + unmatched == i && |pending| <= matched == |known|
        invariant forall k: nat :: k in known <==> k < i && Resolve(Actives(rows), Query(tags[k], ""), intOf).Some?
      {
        var hit, row := MatchTag(tags[i], nextId + |pending|);
        SyncStep(rows, tags, i, nextId, intOf);
        if hit {
          matched := matched + 1;
          known := known + {i};
        } else {
          unmatched := unmatched + 1;
        }
        pending := pending + row;
      }
      assert tags[..|tags|] == tags;
      SyncIds(rows, tags, nextId, intOf);
      MatchedIs(rows, tags, intOf, known);
    }

    /** `sync_from_oci`: queries see the flushed table throughout; the new rows are
        flushed at the end. No answer changes, and the same tags again add nothing. */
    method SyncFromOci(tags: seq<string>) returns (matched: nat, unmatched: nat, upserted: nat)
      requires Valid()
      modifies this`rows, this`nextId
      ensures Valid() && rows == old(rows) + SyncAdds(old(rows), tags, old(nextId), intOf)
      ensures matched == |Matched(old(rows), tags, intOf)| && unmatched == |tags| - matched
      ensures upserted == |rows| - |old(rows)| && upserted <= matched
      ensures forall q :: Resolve(Actives(rows), q, intOf) == Resolve(Actives(old(rows)), q, intOf)
      ensures SyncAdds(rows, tags, nextId, intOf) == []
      ensures forall r :: r in rows[|old(rows)|..] ==> IsSyncRow(r, old(rows), tags, intOf)
      ensures forall tag :: tag in tags && NewToTable(tag, old(rows), intOf) ==>
        exists r :: r in rows[|old(rows)|..] && r.min == tag
    {
      hide Resolve;
      hide Actives;
      hide SyncAdds;
      hide Matched;
      hide Hits;
      hide Recorded;
      hide RowsForTag;
      var pending;
      matched, unmatched, pending := CollectTags(tags);
      upserted := |pending|;
      forall q ensures Resolve(Actives(rows + pending), q, intOf) == Resolve(Actives(rows), q, intOf) {
        SyncKeepsAnswers(rows, tags, nextId, q, intOf);
      }
      SyncTwiceAddsNothing(rows, tags, nextId, nextId + |pending|, intOf);
      SyncRowsAre(rows, tags, nextId, intOf);
      hide IsSyncRow;
      hide NewToTable;
      assert (rows + pending)[|rows|..] == pending;
      rows, nextId := rows + pending, nextId + |pending|;
    }
  }

  lemma {:induction false} NoVersionNoHit(rows: seq<Release>, q: Query, intOf: string -> Option<int>)
    requires q.flo == ""
    ensures FirstHit(rows, q, ByPrefix, intOf).None? && FirstHit(rows, q, ByRange, intOf).None?
  {
  }

  lemma {:induction false} NoManifestNoHit(rows: seq<Release>, q: Query, intOf: string -> Option<int>)
    requires q.manifest == ""
    ensures FirstHit(rows, q, ByManifest, intOf).None?
  {
  }

  lemma {:induction false} RecordedAppended(rows: seq<Release>, row: Release)
    requires Recorded(rows, row.source, row.min).None?
    ensures Recorded(rows + [row], row.source, row.min) == Some(row)
  {
    if rows == [] {
      assert rows + [row] == [row];
    } else {
      assert rows[0] in rows;
      assert (rows + [row])[1..] == rows[1..] + [row];
      RecordedAppended(rows[1..], row);
    }
  }
}
