/** The release registry's rows and how a version is resolved against them. */
module ReleaseSpec {
  import opened Bytes
  import opened Ordering

  datatype Source = Clouddocs | Manual | Oci | Observed

  /** A row of `bnk_releases`; `""` stands for NULL too, as every test is for truth. */
  datatype Release = Release(id: nat, gaLabel: string, manifest: string, prefix: string, min: string, max: string,
                             minK8s: string, maxK8s: string, source: Source, url: string, active: bool)

  datatype GaInfo = GaInfo(gaLabel: string, manifest: string, minK8s: string, maxK8s: string,
                           source: Source, url: string, releaseId: nat)

  function ToGaInfo(r: Release): GaInfo {
    GaInfo(r.gaLabel, r.manifest, r.minK8s, r.maxK8s, r.source, r.url, r.id)
  }

  /** `s.lstrip("v")`. */
  function StripV(s: string): (r: string)
    ensures r == "" || r[0] != 'v'
    ensures |r| <= |s| && r == s[|s| - |r|..] && forall i :: 0 <= i < |s| - |r| ==> s[i] == 'v'
  {
    if s != "" && s[0] == 'v' then StripV(s[1..]) else s
  }

  /** The version starts with the prefix and a dot, both without leading v's. */
  predicate PrefixMatches(version: string, prefix: string) {
    StripV(prefix) + "." <= StripV(version)
  }

  // ---------------------------------------------------------------------
  // parse_version
  // ---------------------------------------------------------------------

  /** `re.split(r"[-.]", s)`. */
  function SplitVersion(s: string): (parts: seq<string>)
    ensures |parts| > 0
  {
    if s == "" then [""]
    else
      var rest := SplitVersion(s[1..]);
      if s[0] == '-' || s[0] == '.' then [""] + rest else [[s[0]] + rest[0]] + rest[1..]
  }

  /** Parts up to the first that is not an integer; `intOf` is Python's `int`. */
  function Numbers(parts: seq<string>, intOf: string -> Option<int>): (ns: seq<int>)
    ensures |ns| <= |parts| && forall i :: 0 <= i < |ns| ==> intOf(parts[i]) == Some(ns[i])
    ensures |ns| < |parts| ==> intOf(parts[|ns|]).None?
  {
    if parts == [] || intOf(parts[0]).None? then []
    else [intOf(parts[0]).value] + Numbers(parts[1..], intOf)
  }

  function ParseVersion(v: string, intOf: string -> Option<int>): (t: seq<int>)
    ensures t != []
  {
    var ns := Numbers(SplitVersion(StripV(v)), intOf);
    if ns == [] then [0] else ns
  }

  // ---------------------------------------------------------------------
  // resolve_ga
  // ---------------------------------------------------------------------

  datatype Query = Query(flo: string, manifest: string)

  datatype Pass = ByPrefix | ByRange | ByManifest

  /** Whether a row answers the query in one of the three passes. */
  predicate Hits(r: Release, q: Query, pass: Pass, intOf: string -> Option<int>) {
    match pass
    case ByPrefix => q.flo != "" && r.prefix != "" && PrefixMatches(StripV(q.flo), r.prefix)
    case ByRange =>
      q.flo != "" && r.min != "" && r.max != "" &&
      LexLe(ParseVersion(r.min, intOf), ParseVersion(StripV(q.flo), intOf)) &&
      LexLt(ParseVersion(StripV(q.flo), intOf), ParseVersion(r.max, intOf))
    case ByManifest => q.manifest != "" && r.manifest != "" && r.manifest == q.manifest
  }

  function Actives(rows: seq<Release>): (r: seq<Release>)
    ensures forall x :: x in r <==> x in rows && x.active
  {
    if rows == [] then []
    else
      var init, last := Actives(rows[..|rows| - 1]), rows[|rows| - 1];
      assert rows == rows[..|rows| - 1] + [last];
      if last.active then init + [last] else init
  }

  /** The first row that hits, in the order the database returns them. */
  function FirstHit(rows: seq<Release>, q: Query, pass: Pass, intOf: string -> Option<int>): (r: Option<Release>)
    ensures r.Some? ==> r.value in rows && Hits(r.value, q, pass, intOf)
    ensures r.None? ==> forall x :: x in rows ==> !Hits(x, q, pass, intOf)
  {
    if rows == [] then None
    else if Hits(rows[0], q, pass, intOf) then Some(rows[0])
    else FirstHit(rows[1..], q, pass, intOf)
  }

  /** Prefix first, then range, then manifest. */
  function Resolve(actives: seq<Release>, q: Query, intOf: string -> Option<int>): Option<GaInfo> {
    match FirstHit(actives, q, ByPrefix, intOf)
    case Some(r) => Some(ToGaInfo(r))
    case None =>
      match FirstHit(actives, q, ByRange, intOf)
      case Some(r) => Some(ToGaInfo(r))
      case None =>
        match FirstHit(actives, q, ByManifest, intOf)
        case Some(r) => Some(ToGaInfo(r))
        case None => None
  }

  // ---------------------------------------------------------------------
  // Observing
  // ---------------------------------------------------------------------

  /** `.filter(source, flo_version_min == v).first()`. */
  function Recorded(rows: seq<Release>, source: Source, v: string): (r: Option<Release>)
    ensures r.Some? ==> r.value in rows && r.value.source == source && r.value.min == v
    ensures r.None? ==> forall x :: x in rows ==> !(x.source == source && x.min == v)
  {
    if rows == [] then None
    else if rows[0].source == source && rows[0].min == v then Some(rows[0])
    else Recorded(rows[1..], source, v)
  }

  function ObservedRow(id: nat, v: string): Release {
    Release(id, "Observed FLO " + v, "", "", v, "", "", "", Observed, "", false)
  }

  function OciRow(id: nat, gaLabel: string, tag: string): Release {
    Release(id, gaLabel, "", "", tag, "", "", "", Oci, "", false)
  }

  /** The row `sync_from_oci` adds for one tag: none if the tag does not resolve or is
      on record in the flushed table. */
  function RowsForTag(rows: seq<Release>, tag: string, id: nat, intOf: string -> Option<int>): seq<Release> {
    match Resolve(Actives(rows), Query(tag, ""), intOf)
    case None => []
    case Some(info) => if Recorded(rows, Oci, tag).Some? then [] else [OciRow(id, info.gaLabel, tag)]
  }

  /** All the rows one call adds. Rows added earlier in the same call are not flushed
      yet, and the session does not flush before a query. */
  function SyncAdds(rows: seq<Release>, tags: seq<string>, nextId: nat, intOf: string -> Option<int>): seq<Release> {
    if tags == [] then []
    else
      var before := SyncAdds(rows, tags[..|tags| - 1], nextId, intOf);
      before + RowsForTag(rows, tags[|tags| - 1], nextId + |before|, intOf)
  }
}
