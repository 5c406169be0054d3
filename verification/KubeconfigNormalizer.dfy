/** `kubeconfig_normalizer`: path references dropped or refused, exec plugins checked.
    Parsing and dumping YAML text are taken as inverse to each other. */
module KubeconfigNormalizer {
  import opened Bytes
  import opened Yaml

  const SUPPORTED: set<string> := {"aws", "aws-iam-authenticator", "gke-gcloud-auth-plugin"}

  /** `KubeconfigUnportableError` with its field, or any other Python exception. */
  datatype Error = Unportable(field: string) | Raised

  datatype Result<+T> = Ok(value: T) | Err(error: Error)

  /** A path field and the inline field that wins over it. */
  datatype PathField = PathField(path: string, inline: string)

  const CA: PathField := PathField("certificate-authority", "certificate-authority-data")
  const CERT: PathField := PathField("client-certificate", "client-certificate-data")
  const KEY: PathField := PathField("client-key", "client-key-data")
  const TOKEN: PathField := PathField("tokenFile", "token")

  // ---------------------------------------------------------------------
  // Bodies
  // ---------------------------------------------------------------------

  /** The path form is dropped next to its inline form, refused without it, and left
      alone when empty. */
  function DropPath(body: Fields, f: PathField): Result<Fields> {
    if Has(body, f.inline) then Ok(body - {Str(f.path)})
    else if Has(body, f.path) then Err(Unportable(f.path))
    else Ok(body)
  }

  function CheckExec(user: Fields): Option<Error> {
    var exec := Get(user, "exec");
    if !exec.Map? then None
    else
      var command := if Str("command") in exec.fields then exec.fields[Str("command")] else Str("");
      match command
      case List(_) => Some(Raised)  // unhashable
      case Map(_) => Some(Raised)
      case Str(s) => if s in SUPPORTED then None else Some(Unportable("exec.command"))
      case _ => Some(Unportable("exec.command"))
  }

  function NormalizeCluster(body: Fields): Result<Fields> {
    DropPath(body, CA)
  }

  function NormalizeUser(body: Fields): Result<Fields> {
    match DropPath(body, CERT)
    case Err(e) => Err(e)
    case Ok(b1) =>
      match DropPath(b1, KEY)
      case Err(e) => Err(e)
      case Ok(b2) =>
        match DropPath(b2, TOKEN)
        case Err(e) => Err(e)
        case Ok(b3) => if CheckExec(b3).Some? then Err(CheckExec(b3).value) else Ok(b3)
  }

  // ---------------------------------------------------------------------
  // Entries and documents
  // ---------------------------------------------------------------------

  datatype Kind = Clusters | Users

  function ListKey(kind: Kind): string {
    if kind == Clusters then "clusters" else "users"
  }

  function BodyKey(kind: Kind): string {
    if kind == Clusters then "cluster" else "user"
  }

  function NormalizeBody(kind: Kind, body: Fields): Result<Fields> {
    if kind == Clusters then NormalizeCluster(body) else NormalizeUser(body)
  }

  /** One list entry; anything without a mapping under its key is skipped. */
  function NormalizeEntry(kind: Kind, entry: Value): Result<Value> {
    match EntryGet(entry, BodyKey(kind))
    case None => Err(Raised)
    case Some(body) =>
      if !body.Map? then Ok(entry)
      else match NormalizeBody(kind, body.fields)
        case Err(e) => Err(e)
        case Ok(b) => Ok(Map(entry.fields[Str(BodyKey(kind)) := Map(b)]))
  }

  function NormalizeEntries(kind: Kind, items: seq<Value>): (r: Result<seq<Value>>)
    ensures r.Ok? ==> |r.value| == |items|
  {
    if items == [] then Ok([])
    else match NormalizeEntries(kind, items[..|items| - 1])
      case Err(e) => Err(e)
      case Ok(done) =>
        match NormalizeEntry(kind, items[|items| - 1])
        case Err(e) => Err(e)
        case Ok(v) => Ok(done + [v])
  }

  /** One of the two lists, rewritten in place. */
  function NormalizeList(kind: Kind, doc: Fields): Result<Fields> {
    var list := Get(doc, ListKey(kind));
    match Iterate(list)
    case None => Err(Raised)
    case Some(items) =>
      match NormalizeEntries(kind, items)
      case Err(e) => Err(e)
      case Ok(done) => if list.List? then Ok(doc[Str(ListKey(kind)) := List(done)]) else Ok(doc)
  }

  function Normalize(doc: Value): Result<Value> {
    if !doc.Map? then Err(Unportable("kubeconfig"))
    else match NormalizeList(Clusters, doc.fields)
      case Err(e) => Err(e)
      case Ok(d1) =>
        match NormalizeList(Users, d1)
        case Err(e) => Err(e)
        case Ok(d2) => Ok(Map(d2))
  }

  // ---------------------------------------------------------------------
  // The loops
  // ---------------------------------------------------------------------

  /** `_normalize_clusters`: each entry in turn, up to the first that is refused. */
  method NormalizeClusters(doc: Fields) returns (r: Result<Fields>)
    ensures r == NormalizeList(Clusters, doc)
  {
    var list := Get(doc, "clusters");
    var items := Iterate(list);
    if items.None? {
      return Err(Raised);
    }
    var entries := items.value;
    ListIs(Clusters, doc, entries);
    NoEntries(Clusters, entries);
    hide *;
    for i := 0 to |entries|
      invariant |entries| == |items.value|
      invariant forall k :: i <= k < |entries| ==> entries[k] == items.value[k]
      invariant NormalizeEntries(Clusters, items.value[..i]) == Ok(entries[..i])
    {
      EntriesStep(Clusters, items.value, i);
      var entry := PopCluster(entries[i]);
      if entry.Err? {
        EntriesFail(Clusters, items.value, i + 1, entry.error);
        return Err(entry.error);
      }
      PutNext(entries, i, entry.value);
      entries := entries[i := entry.value];
    }
    assert items.value[..|entries|] == items.value && entries[..|entries|] == entries;
    r := Ok(if list.List? then doc[Str("clusters") := List(entries)] else doc);
  }

  /** One cluster entry, popping in place. */
  method PopCluster(entry: Value) returns (r: Result<Value>)
    ensures r == NormalizeEntry(Clusters, entry)
  {
    var body := EntryGet(entry, "cluster");
    if body.None? {
      return Err(Raised);
    }
    if !body.value.Map? {
      return Ok(entry);
    }
    var cluster := body.value.fields;
    if Has(cluster, "certificate-authority-data") {
      cluster := cluster - {Str("certificate-authority")};
    } else if Has(cluster, "certificate-authority") {
      return Err(Unportable("certificate-authority"));
    }
    r := Ok(Map(entry.fields[Str("cluster") := Map(cluster)]));
  }

  /** `_normalize_users`: each entry in turn, up to the first that is refused. */
  method NormalizeUsers(doc: Fields) returns (r: Result<Fields>)
    ensures r == NormalizeList(Users, doc)
  {
    var list := Get(doc, "users");
    var items := Iterate(list);
    if items.None? {
      return Err(Raised);
    }
    var entries := items.value;
    ListIs(Users, doc, entries);
    NoEntries(Users, entries);
    hide *;
    for i := 0 to |entries|
      invariant |entries| == |items.value|
      invariant forall k :: i <= k < |entries| ==> entries[k] == items.value[k]
      invariant NormalizeEntries(Users, items.value[..i]) == Ok(entries[..i])
    {
      EntriesStep(Users, items.value, i);
      var entry := PopUser(entries[i]);
      if entry.Err? {
        EntriesFail(Users, items.value, i + 1, entry.error);
        return Err(entry.error);
      }
      PutNext(entries, i, entry.value);
      entries := entries[i := entry.value];
    }
    assert items.value[..|entries|] == items.value && entries[..|entries|] == entries;
    r := Ok(if list.List? then doc[Str("users") := List(entries)] else doc);
  }

  method PopUser(entry: Value) returns (r: Result<Value>)
    ensures r == NormalizeEntry(Users, entry)
  {
    var body := EntryGet(entry, "user");
    if body.None? {
      return Err(Raised);
    }
    if !body.value.Map? {
      return Ok(entry);
    }
    var user := PopUserPaths(body.value.fields);
    hide NormalizeUser;
    r := if user.Err? then Err(user.error) else Ok(Map(entry.fields[Str("user") := Map(user.value)]));
  }

  lemma EntriesStep(kind: Kind, items: seq<Value>, i: nat)
    requires i < |items|
    ensures NormalizeEntries(kind, items[..i + 1]) ==
      match NormalizeEntries(kind, items[..i])
      case Err(e) => Err(e)
      case Ok(done) =>
        match NormalizeEntry(kind, items[i])
        case Err(e) => Err(e)
        case Ok(v) => Ok(done + [v])
  {
    hide NormalizeEntry;
    assert items[..i + 1][..i] == items[..i];
  }

  lemma PutNext(entries: seq<Value>, i: nat, v: Value)
    requires i < |entries|
    ensures entries[i := v][..i + 1] == entries[..i] + [v]
  {
  }

  lemma NoEntries(kind: Kind, items: seq<Value>)
    ensures NormalizeEntries(kind, items[..0]) == Ok(items[..0])
  {
  }

  lemma ListIs(kind: Kind, doc: Fields, items: seq<Value>)
    requires Iterate(Get(doc, ListKey(kind))) == Some(items)
    ensures NormalizeList(kind, doc) ==
      match NormalizeEntries(kind, items)
      case Err(e) => Err(e)
      case Ok(done) => Ok(if Get(doc, ListKey(kind)).List? then doc[Str(ListKey(kind)) := List(done)] else doc)
  {
    hide NormalizeEntries;
  }

  method PopUserPaths(body: Fields) returns (r: Result<Fields>)
    ensures r == NormalizeUser(body)
  {
    var user := body;
    if Has(user, "client-certificate-data") {
      user := user - {Str("client-certificate")};
    } else if Has(user, "client-certificate") {
      return Err(Unportable("client-certificate"));
    }
    if Has(user, "client-key-data") {
      user := user - {Str("client-key")};
    } else if Has(user, "client-key") {
      return Err(Unportable("client-key"));
    }
    if Has(user, "token") {
      user := user - {Str("tokenFile")};
    } else if Has(user, "tokenFile") {
      return Err(Unportable("tokenFile"));
    }
    var exec := CheckExec(user);
    r := if exec.Some? then Err(exec.value) else Ok(user);
  }

  /** `normalize_kubeconfig` on the parsed document. */
  method NormalizeKubeconfig(doc: Value) returns (r: Result<Value>)
    ensures r == Normalize(doc)
    ensures r.Ok? ==> Portable(r.value) && Normalize(r.value) == r
  {
    if !doc.Map? {
      return Err(Unportable("kubeconfig"));
    }
    var d := NormalizeClusters(doc.fields);
    if d.Err? {
      return Err(d.error);
    }
    d := NormalizeUsers(d.value);
    if d.Err? {
      return Err(d.error);
    }
    r := Ok(Map(d.value));
    ResultPortable(doc);
    Idempotent(doc);
  }

  lemma {:induction false} EntriesFail(kind: Kind, items: seq<Value>, k: nat, e: Error)
    requires k <= |items| && NormalizeEntries(kind, items[..k]) == Err(e)
    ensures NormalizeEntries(kind, items) == Err(e)
    decreases |items| - k
  {
    if k == |items| {
      assert items[..k] == items;
    } else {
      assert items[..k + 1][..k] == items[..k];
      EntriesFail(kind, items, k + 1, e);
    }
  }

  // ---------------------------------------------------------------------
  // What success means
  // ---------------------------------------------------------------------

  predicate NoPath(body: Fields, f: PathField) {
    !Has(body, f.path)
  }

  predicate PortableBody(kind: Kind, body: Fields) {
    if kind == Clusters then NoPath(body, CA)
    else
      NoPath(body, CERT) && NoPath(body, KEY) && NoPath(body, TOKEN) &&
      var exec := Get(body, "exec");
      exec.Map? ==>
        Str("command") in exec.fields && exec.fields[Str("command")].Str? && exec.fields[Str("command")].s in SUPPORTED
  }

  predicate PortableEntry(kind: Kind, entry: Value) {
    entry.Map? && Get(entry.fields, BodyKey(kind)).Map? ==>
      PortableBody(kind, Get(entry.fields, BodyKey(kind)).fields)
  }

  predicate PortableList(kind: Kind, doc: Fields) {
    var list := Get(doc, ListKey(kind));
    list.List? ==> forall i :: 0 <= i < |list.items| ==> PortableEntry(kind, list.items[i])
  }

  /** No cluster or user keeps a nonempty path or an exec command off the allowlist. */
  predicate Portable(doc: Value) {
    doc.Map? && PortableList(Clusters, doc.fields) && PortableList(Users, doc.fields)
  }

  /** The body is the same but for path fields whose inline form is present. */
  ghost predicate OnlyPathsDropped(kind: Kind, before: Fields, after: Fields) {
    (forall k :: k in after ==> k in before && after[k] == before[k]) &&
    forall k :: k in before && k !in after ==>
      if kind == Clusters then k == Str(CA.path) && Has(before, CA.inline)
      else (k == Str(CERT.path) && Has(before, CERT.inline)) || (k == Str(KEY.path) && Has(before, KEY.inline)) ||
           (k == Str(TOKEN.path) && Has(before, TOKEN.inline))
  }

  lemma BodyNormalized(kind: Kind, body: Fields)
    requires NormalizeBody(kind, body).Ok?
    ensures var after := NormalizeBody(kind, body).value;
      PortableBody(kind, after) && OnlyPathsDropped(kind, body, after) && NormalizeBody(kind, after) == Ok(after)
  {
    if kind == Users {
      UserNormalized(body);
    } else {
      DropPathOnce(body, CA);
    }
  }

  lemma DropPathOnce(body: Fields, f: PathField)
    requires f.path != f.inline && DropPath(body, f).Ok?
    ensures var after := DropPath(body, f).value;
      !Has(after, f.path) && DropPath(after, f) == Ok(after) &&
      (after == body || (after == body - {Str(f.path)} && Has(body, f.inline)))
  {
    var after := DropPath(body, f).value;
    assert Has(body, f.inline) ==> after - {Str(f.path)} == after;
  }

  lemma UserSteps(body: Fields) returns (b1: Fields, b2: Fields)
    requires NormalizeUser(body).Ok?
    ensures var b3 := NormalizeUser(body).value;
      DropPath(body, CERT) == Ok(b1) && DropPath(b1, KEY) == Ok(b2) && DropPath(b2, TOKEN) == Ok(b3) &&
      CheckExec(b3).None?
  {
    hide DropPath;
    hide CheckExec;
    b1 := DropPath(body, CERT).value;
    b2 := DropPath(b1, KEY).value;
  }

  lemma NothingToDo(body: Fields)
    requires DropPath(body, CERT) == Ok(body) && DropPath(body, KEY) == Ok(body) && DropPath(body, TOKEN) == Ok(body)
    requires CheckExec(body).None?
    ensures NormalizeUser(body) == Ok(body)
  {
    hide DropPath;
    hide CheckExec;
  }

  lemma PortableUser(body: Fields)
    requires !Has(body, CERT.path) && !Has(body, KEY.path) && !Has(body, TOKEN.path) && CheckExec(body).None?
    ensures PortableBody(Users, body)
  {
  }

  lemma UserNormalized(body: Fields)
    requires NormalizeUser(body).Ok?
    ensures var after := NormalizeUser(body).value;
      PortableBody(Users, after) && OnlyPathsDropped(Users, body, after) && NormalizeUser(after) == Ok(after)
  {
    var b1, b2 := UserSteps(body);
    hide *;
    var b3 := NormalizeUser(body).value;
    FieldsDiffer();
    DropPathOnce(body, CERT);
    DropPathOnce(b1, KEY);
    DropPathOnce(b2, TOKEN);
    PathsGone(b1, b2, b3);
    PortableUser(b3);
    StaysNormal(b1, b3, CERT);
    StaysNormal(b2, b3, KEY);
    NothingToDo(b3);
    PathsDropped(body, b1, b2, b3);
  }

  lemma FieldsDiffer()
    ensures CERT.path != CERT.inline && KEY.path != KEY.inline && TOKEN.path != TOKEN.inline
  {
  }

  lemma PathsDropped(body: Fields, b1: Fields, b2: Fields, b3: Fields)
    requires b1 == body || (b1 == body - {Str(CERT.path)} && Has(body, CERT.inline))
    requires b2 == b1 || (b2 == b1 - {Str(KEY.path)} && Has(b1, KEY.inline))
    requires b3 == b2 || (b3 == b2 - {Str(TOKEN.path)} && Has(b2, TOKEN.inline))
    ensures OnlyPathsDropped(Users, body, b3)
  {
  }

  lemma PathsGone(b1: Fields, b2: Fields, b3: Fields)
    requires !Has(b1, CERT.path) && !Has(b2, KEY.path) && !Has(b3, TOKEN.path)
    requires b2 == b1 || b2 == b1 - {Str(KEY.path)}
    requires b3 == b2 || b3 == b2 - {Str(TOKEN.path)}
    ensures !Has(b3, CERT.path) && !Has(b3, KEY.path)
    ensures forall k :: k in b3 ==> k in b2 && b3[k] == b2[k]
    ensures forall k :: k in b3 ==> k in b1 && b3[k] == b1[k]
    ensures Str(CERT.inline) in b1 ==> Str(CERT.inline) in b3
    ensures Str(KEY.inline) in b2 ==> Str(KEY.inline) in b3
  {
  }

  lemma StaysNormal(b: Fields, c: Fields, f: PathField)
    requires DropPath(b, f) == Ok(b) && !Has(c, f.path)
    requires forall k :: k in c ==> k in b && c[k] == b[k]
    requires Str(f.inline) in b ==> Str(f.inline) in c
    ensures DropPath(c, f) == Ok(c)
  {
    if Has(c, f.inline) {
      assert b - {Str(f.path)} == b;
      assert Str(f.path) !in b;
      assert c - {Str(f.path)} == c;
    }
  }

  /** Entries differ at most in their body, and there only by dropped paths. */
  ghost predicate EntryFrame(kind: Kind, before: Value, after: Value) {
    after == before ||
    (before.Map? && after.Map? && after.fields.Keys == before.fields.Keys &&
     (forall k :: k in before.fields && k != Str(BodyKey(kind)) ==> after.fields[k] == before.fields[k]) &&
     Get(before.fields, BodyKey(kind)).Map? && Get(after.fields, BodyKey(kind)).Map? &&
     OnlyPathsDropped(kind, Get(before.fields, BodyKey(kind)).fields, Get(after.fields, BodyKey(kind)).fields))
  }

  lemma EntryNormalized(kind: Kind, entry: Value)
    requires NormalizeEntry(kind, entry).Ok?
    ensures var after := NormalizeEntry(kind, entry).value;
      PortableEntry(kind, after) && NormalizeEntry(kind, after) == Ok(after) && EntryFrame(kind, entry, after)
  {
    hide NormalizeBody;
    hide PortableBody;
    hide OnlyPathsDropped;
    var after := NormalizeEntry(kind, entry).value;
    var key := BodyKey(kind);
    var body := EntryGet(entry, key).value;
    if body.Map? {
      BodyNormalized(kind, body.fields);
      var b := NormalizeBody(kind, body.fields).value;
      assert Str(key) in entry.fields && after == Map(entry.fields[Str(key) := Map(b)]);
      assert Get(after.fields, key) == Map(b) && Truthy(after);
      assert after.fields[Str(key) := Map(b)] == after.fields;
    } else {
      assert entry.Map? ==> !Truthy(entry) || Get(entry.fields, key) == body;
    }
  }

  lemma EntriesSnoc(kind: Kind, items: seq<Value>, last: Value)
    ensures NormalizeEntries(kind, items + [last]) ==
      match NormalizeEntries(kind, items)
      case Err(e) => Err(e)
      case Ok(done) =>
        match NormalizeEntry(kind, last)
        case Err(e) => Err(e)
        case Ok(v) => Ok(done + [v])
  {
    hide NormalizeEntry;
    assert (items + [last])[..|items|] == items;
  }

  /** Entry by entry: portable, and changed in nothing but dropped paths. */
  ghost predicate AllNormalized(kind: Kind, items: seq<Value>, done: seq<Value>) {
    |done| == |items| &&
    forall i :: 0 <= i < |items| ==> PortableEntry(kind, done[i]) && EntryFrame(kind, items[i], done[i])
  }

  lemma OneMoreNormalized(kind: Kind, items: seq<Value>, done: seq<Value>, item: Value, v: Value)
    requires AllNormalized(kind, items, done) && PortableEntry(kind, v) && EntryFrame(kind, item, v)
    ensures AllNormalized(kind, items + [item], done + [v])
  {
    hide PortableEntry;
    hide EntryFrame;
  }

  lemma {:induction false} EntriesNormalized(kind: Kind, items: seq<Value>)
    requires NormalizeEntries(kind, items).Ok?
    ensures var done := NormalizeEntries(kind, items).value;
      NormalizeEntries(kind, done) == Ok(done) && AllNormalized(kind, items, done)
  {
    if items != [] {
      var init, last := items[..|items| - 1], items[|items| - 1];
      assert init + [last] == items;
      hide *;
      EntriesSnoc(kind, init, last);
      EntriesNormalized(kind, init);
      EntryNormalized(kind, last);
      var before, v := NormalizeEntries(kind, init).value, NormalizeEntry(kind, last).value;
      EntriesSnoc(kind, before, v);
      OneMoreNormalized(kind, init, before, last, v);
    }
  }

  /** A document's list, entry by entry; every other key of the document is as it was. */
  ghost predicate ListFrame(kind: Kind, before: Fields, after: Fields) {
    after.Keys == before.Keys &&
    (forall k :: k in before && k != Str(ListKey(kind)) ==> after[k] == before[k]) &&
    var list, list' := Get(before, ListKey(kind)), Get(after, ListKey(kind));
    if list.List? then
      list'.List? && |list'.items| == |list.items| &&
      forall i :: 0 <= i < |list.items| ==> EntryFrame(kind, list.items[i], list'.items[i])
    else list' == list
  }

  lemma ListNormalized(kind: Kind, doc: Fields)
    requires NormalizeList(kind, doc).Ok?
    ensures var after := NormalizeList(kind, doc).value;
      PortableList(kind, after) && NormalizeList(kind, after) == Ok(after) && ListFrame(kind, doc, after)
  {
    hide NormalizeEntry;
    hide NormalizeEntries;
    hide PortableEntry;
    hide EntryFrame;
    var list := Get(doc, ListKey(kind));
    if list.List? {
      var items := Iterate(list).value;
      assert items == list.items;
      EntriesNormalized(kind, items);
      var done := NormalizeEntries(kind, items).value;
      var after := doc[Str(ListKey(kind)) := List(done)];
      assert Iterate(List(done)) == Some(done);
      assert after[Str(ListKey(kind)) := List(done)] == after;
    }
  }

  /** The other list's normalisation depends only on that list. */
  lemma OtherListUnmoved(kind: Kind, d: Fields, d': Fields)
    requires Str(ListKey(kind)) in d <==> Str(ListKey(kind)) in d'
    requires Str(ListKey(kind)) in d ==> d'[Str(ListKey(kind))] == d[Str(ListKey(kind))]
    requires PortableList(kind, d) && NormalizeList(kind, d) == Ok(d)
    ensures PortableList(kind, d') && NormalizeList(kind, d') == Ok(d')
  {
    hide PortableEntry;
    hide NormalizeEntries;
    var list := Get(d, ListKey(kind));
    if list.List? {
      assert d[Str(ListKey(kind))] == list;
      var done := NormalizeEntries(kind, Iterate(list).value).value;
      assert d[Str(ListKey(kind)) := List(done)][Str(ListKey(kind))] == List(done);
      assert d'[Str(ListKey(kind)) := List(done)] == d';
    }
  }

  /** On success nothing unportable is left. */
  lemma ResultPortable(doc: Value)
    requires Normalize(doc).Ok?
    ensures Portable(Normalize(doc).value)
  {
    hide NormalizeList;
    hide PortableList;
    var d1 := NormalizeList(Clusters, doc.fields).value;
    ListNormalized(Clusters, doc.fields);
    ListNormalized(Users, d1);
    OtherListUnmoved(Clusters, d1, NormalizeList(Users, d1).value);
  }

  /** Normalising a normalised document changes nothing. */
  lemma Idempotent(doc: Value)
    requires Normalize(doc).Ok?
    ensures Normalize(Normalize(doc).value) == Normalize(doc)
  {
    hide NormalizeList;
    hide PortableList;
    var d1 := NormalizeList(Clusters, doc.fields).value;
    var d2 := NormalizeList(Users, d1).value;
    ListNormalized(Clusters, doc.fields);
    ListNormalized(Users, d1);
    OtherListUnmoved(Clusters, d1, d2);
  }

  /** Nothing else is touched: every other key of the document, every other field of
      every entry, and every field of every body but a path whose inline form wins. */
  lemma RestUntouched(doc: Value)
    requires Normalize(doc).Ok?
    ensures exists mid :: ListFrame(Clusters, doc.fields, mid) && ListFrame(Users, mid, Normalize(doc).value.fields)
    ensures forall k :: k in doc.fields && k != Str("clusters") && k != Str("users") ==>
      k in Normalize(doc).value.fields && Normalize(doc).value.fields[k] == doc.fields[k]
  {
    hide NormalizeList;
    hide PortableList;
    hide EntryFrame;
    var d1 := NormalizeList(Clusters, doc.fields).value;
    ListNormalized(Clusters, doc.fields);
    ListNormalized(Users, d1);
    assert ListFrame(Clusters, doc.fields, d1) && ListFrame(Users, d1, Normalize(doc).value.fields);
  }

  // ---------------------------------------------------------------------
  // Exactly what is accepted
  // ---------------------------------------------------------------------

  /** One path field: dropped, whatever it holds, beside an inline form; refused by name
      without one; left alone when empty. Every other field stays. */
  lemma DropPathIs(body: Fields, f: PathField)
    ensures Has(body, f.inline) ==>
      DropPath(body, f).Ok? && Str(f.path) !in DropPath(body, f).value &&
      forall k :: k != Str(f.path) ==>
        (k in DropPath(body, f).value <==> k in body) && (k in body ==> DropPath(body, f).value[k] == body[k])
    ensures !Has(body, f.inline) && Has(body, f.path) ==> DropPath(body, f) == Err(Unportable(f.path))
    ensures !Has(body, f.inline) && !Has(body, f.path) ==> DropPath(body, f) == Ok(body)
  {
    hide Has;
  }

  /** An exec block is let through exactly when it is no mapping or its command is one of
      three; a list or mapping for a command raises instead of being refused. */
  lemma CheckExecIs(user: Fields)
    ensures CheckExec(user).None? <==>
      !Get(user, "exec").Map? ||
      Get(Get(user, "exec").fields, "command") in
        {Str("aws"), Str("aws-iam-authenticator"), Str("gke-gcloud-auth-plugin")}
    ensures CheckExec(user) == Some(Raised) <==>
      Get(user, "exec").Map? &&
      (Get(Get(user, "exec").fields, "command").List? || Get(Get(user, "exec").fields, "command").Map?)
    ensures CheckExec(user).Some? ==> CheckExec(user).value in {Raised, Unportable("exec.command")}
  {
    var exec := Get(user, "exec");
    if exec.Map? {
      var given := Get(exec.fields, "command");
      assert Str("command") in exec.fields ==> given == exec.fields[Str("command")];
      assert "" !in SUPPORTED;
    }
  }

  predicate PathOk(body: Fields, f: PathField) {
    Has(body, f.inline) || !Has(body, f.path)
  }

  predicate BodyOk(kind: Kind, body: Fields) {
    if kind == Clusters then PathOk(body, CA)
    else PathOk(body, CERT) && PathOk(body, KEY) && PathOk(body, TOKEN) && CheckExec(body).None?
  }

  predicate EntryOk(kind: Kind, entry: Value) {
    var body := EntryGet(entry, BodyKey(kind));
    body.Some? && (body.value.Map? ==> BodyOk(kind, body.value.fields))
  }

  predicate ListOk(kind: Kind, doc: Fields) {
    var items := Iterate(Get(doc, ListKey(kind)));
    items.Some? && forall i :: 0 <= i < |items.value| ==> EntryOk(kind, items.value[i])
  }

  lemma BodyAccepted(kind: Kind, body: Fields)
    ensures NormalizeBody(kind, body).Ok? <==> BodyOk(kind, body)
  {
    if kind == Users && PathOk(body, CERT) {
      var b1 := DropPath(body, CERT).value;
      assert PathOk(b1, KEY) <==> PathOk(body, KEY);
      if PathOk(body, KEY) {
        var b2 := DropPath(b1, KEY).value;
        assert PathOk(b2, TOKEN) <==> PathOk(body, TOKEN);
        if PathOk(body, TOKEN) {
          var b3 := DropPath(b2, TOKEN).value;
          assert Get(b3, "exec") == Get(body, "exec");
        }
      }
    }
  }

  lemma {:induction false} EntriesAccepted(kind: Kind, items: seq<Value>)
    ensures NormalizeEntries(kind, items).Ok? <==> forall i :: 0 <= i < |items| ==> EntryOk(kind, items[i])
  {
    hide NormalizeBody;
    hide BodyOk;
    if items != [] {
      var init, last := items[..|items| - 1], items[|items| - 1];
      EntriesAccepted(kind, init);
      assert forall i :: 0 <= i < |init| ==> init[i] == items[i];
      var body := EntryGet(last, BodyKey(kind));
      if body.Some? && body.value.Map? {
        BodyAccepted(kind, body.value.fields);
      }
      assert NormalizeEntry(kind, last).Ok? <==> EntryOk(kind, last);
    }
  }

  /** A document is accepted exactly when both lists can be walked, every cluster and
      user has an inline form beside each path, and every exec command is allowed. */
  lemma AcceptedExactlyWhen(doc: Value)
    ensures Normalize(doc).Ok? <==> doc.Map? && ListOk(Clusters, doc.fields) && ListOk(Users, doc.fields)
  {
    hide NormalizeEntries;
    hide EntryOk;
    if doc.Map? {
      ListAccepted(Clusters, doc.fields);
      if NormalizeList(Clusters, doc.fields).Ok? {
        var d1 := NormalizeList(Clusters, doc.fields).value;
        ListAccepted(Users, d1);
        assert Get(d1, "users") == Get(doc.fields, "users");
      }
    }
  }

  lemma ListAccepted(kind: Kind, doc: Fields)
    ensures NormalizeList(kind, doc).Ok? <==> ListOk(kind, doc)
  {
    hide NormalizeEntries;
    hide EntryOk;
    var items := Iterate(Get(doc, ListKey(kind)));
    if items.Some? {
      EntriesAccepted(kind, items.value);
    }
  }
}
