/** `kubeconfig_discovery`: every context of the local kubeconfigs as a document of
    its own, or the reasons it cannot be one. */
module KubeconfigDiscovery {
  import opened Bytes
  import opened KubeconfigNormalizer
  import opened Yaml

  const MINTABLE: set<string> := {"aws", "aws-iam-authenticator", "gke-gcloud-auth-plugin"}

  /** A readable file: its bytes in base64, and as stripped text. */
  datatype File = File(base64: string, text: string)
  type Files = map<string, File>

  /** What lies outside: the files, and the server texts `urlparse` refuses (a bracket
      without its partner, a bracketed host that is no address, a host with characters
      that decompose into delimiters). */
  datatype World = World(files: Files, refused: set<string>)

  datatype Blocker = NoCluster | NoServer | CannotRead(field: string) | AuthUnsupported(command: string)

  datatype Context = Context(name: Value, apiServer: Value, auth: string, user: Fields,
                             kubeconfig: Option<Value>, blockers: seq<Blocker>)
  {
    predicate Adoptable() {
      kubeconfig.Some? && blockers == []
    }
  }

  // ---------------------------------------------------------------------
  // _inline_paths
  // ---------------------------------------------------------------------

  /** Paths are resolved against the kubeconfig's own directory. */
  function Located(raw: string, base: string): string {
    if "/" <= raw then raw else base + "/" + raw
  }

  datatype Inlined = Inlined(body: Fields, blockers: seq<Blocker>) | PathRaises

  /** One field: dropped next to its inline form (a token file is read regardless),
      replaced by the file's contents, or a blocker. A path that is not text is refused
      by `Path`, one that holds a NUL by `open`; neither is an `OSError`. */
  function InlineOne(body: Fields, f: PathField, base: string, w: World): Inlined {
    var raw := Get(body, f.path);
    if !Truthy(raw) then Inlined(body, [])
    else if f != TOKEN && Has(body, f.inline) then Inlined(body - {Str(f.path)}, [])
    else if !raw.Str? || '\U{00}' in raw.s then PathRaises
    else
      var at := Located(raw.s, base);
      if at !in w.files then Inlined(body, [CannotRead(f.path)])
      else
        var content := if f == TOKEN then w.files[at].text else w.files[at].base64;
        Inlined((body - {Str(f.path)})[Str(f.inline) := Str(content)], [])
  }

  function InlineAll(body: Fields, fields: seq<PathField>, base: string, w: World): Inlined {
    if fields == [] then Inlined(body, [])
    else match InlineAll(body, fields[..|fields| - 1], base, w)
      case PathRaises => PathRaises
      case Inlined(b, blockers) =>
        match InlineOne(b, fields[|fields| - 1], base, w)
        case PathRaises => PathRaises
        case Inlined(b', more) => Inlined(b', blockers + more)
  }

  method InlinePaths(body: Fields, fields: seq<PathField>, base: string, w: World) returns (r: Inlined)
    ensures r == InlineAll(body, fields, base, w)
  {
    r := Inlined(body, []);
    for i := 0 to |fields|
      invariant r.Inlined? && r == InlineAll(body, fields[..i], base, w)
    {
      assert fields[..i + 1][..i] == fields[..i];
      var one := InlineOne(r.body, fields[i], base, w);
      if one.PathRaises? {
        InlineStuck(body, fields, i + 1, base, w);
        return PathRaises;
      }
      r := Inlined(one.body, r.blockers + one.blockers);
    }
    assert fields[..|fields|] == fields;
  }

  lemma {:induction false} InlineStuck(body: Fields, fields: seq<PathField>, k: nat, base: string,
                                       w: World)
    requires k <= |fields| && InlineAll(body, fields[..k], base, w).PathRaises?
    ensures InlineAll(body, fields, base, w).PathRaises?
    decreases |fields| - k
  {
    if k == |fields| {
      assert fields[..k] == fields;
    } else {
      assert fields[..k + 1][..k] == fields[..k];
      InlineStuck(body, fields, k + 1, base, w);
    }
  }

  // ---------------------------------------------------------------------
  // _classify_auth
  // ---------------------------------------------------------------------

  /** `os.path.basename`. */
  function Basename(s: string): string {
    if '/' !in s then s else Basename(s[1..])
  }

  /** `str(command or "")`; the text of a list, mapping, number or boolean is never
      an allowed name, and is not spelled out here. */
  function CommandText(v: Value): string {
    if !Truthy(v) then "" else if v.Str? then v.s else "?"
  }

  /** The auth method, and the command when it cannot be used. */
  function ClassifyAuth(user: Fields): (string, Option<string>) {
    var exec := Get(user, "exec");
    if exec.Map? then
      var base := Basename(CommandText(Get(exec.fields, "command")));
      ("exec:" + base, if base in MINTABLE then None else Some(base))
    else if Has(user, "token") then ("token", None)
    else if Has(user, "client-certificate-data") then ("client-certificate", None)
    else if Has(user, "username") && Has(user, "password") then ("basic", None)
    else ("anonymous", None)
  }

  // ---------------------------------------------------------------------
  // _build_context
  // ---------------------------------------------------------------------

  /** The first mapping in the list with this name. */
  function FindIn(entries: seq<Value>, name: Value): Option<Fields> {
    if entries == [] then None
    else if entries[0].Map? && Get(entries[0].fields, "name") == name then Some(entries[0].fields)
    else FindIn(entries[1..], name)
  }

  function FindNamed(entries: Value, name: Value): Option<Fields> {
    if !Truthy(name) || !entries.List? then None else FindIn(entries.items, name)
  }

  predicate Hashable(v: Value) {
    !v.List? && !v.Map?
  }

  /** A key and a value out of one element of a list given to `dict`. */
  function PairOf(v: Value): Option<(Value, Value)> {
    match v
    case List(items) => if |items| == 2 && Hashable(items[0]) then Some((items[0], items[1])) else None
    case Str(s) => if |s| == 2 then Some((Str([s[0]]), Str([s[1]]))) else None
    case _ => None
  }

  function DictOfPairs(items: seq<Value>): Option<Fields> {
    if items == [] then Some(map[])
    else match (DictOfPairs(items[..|items| - 1]), PairOf(items[|items| - 1]))
      case (Some(m), Some((k, v))) => Some(m[k := v])
      case _ => None
  }

  /** Pair by pair, a later one over an earlier; one that is no pair spoils the list. */
  lemma DictOfPairsIs(items: seq<Value>, v: Value)
    ensures DictOfPairs([]) == Some(map[])
    ensures DictOfPairs(items + [v]) ==
      if DictOfPairs(items).None? || PairOf(v).None? then None
      else Some(DictOfPairs(items).value[PairOf(v).value.0 := PairOf(v).value.1])
  {
    hide PairOf;
    assert (items + [v])[..|items|] == items;
  }

  /** `dict(v or {})`: None where Python raises. */
  function DictOf(v: Value): Option<Fields> {
    if !Truthy(v) then Some(map[])
    else match v
      case Map(fields) => Some(fields)
      case List(items) => DictOfPairs(items)
      case _ => None
  }

  predicate DictOk(v: Value) {
    !Truthy(v) || v.Map? || (v.List? && forall i :: 0 <= i < |v.items| ==> PairOf(v.items[i]).Some?)
  }

  lemma {:induction false} PairsOk(items: seq<Value>)
    ensures DictOfPairs(items).Some? <==> forall i :: 0 <= i < |items| ==> PairOf(items[i]).Some?
  {
    hide PairOf;
    if items != [] {
      var init := items[..|items| - 1];
      PairsOk(init);
      assert forall i :: 0 <= i < |init| ==> init[i] == items[i];
    }
  }

  lemma DictExactlyWhen(v: Value)
    ensures DictOf(v).Some? <==> DictOk(v)
  {
    if v.List? {
      PairsOk(v.items);
    }
  }

  /** `(entry or {}).get(key)` of a named cluster or user. */
  function BodyValue(entry: Option<Fields>, key: string): Value {
    if entry.Some? then Get(entry.value, key) else Null
  }

  function BodyOf(entry: Option<Fields>, key: string): Option<Fields> {
    DictOf(BodyValue(entry, key))
  }

  /** `entry.get("context") or {}`, which is asked `.get` right after. */
  function ContextOf(entry: Fields): Option<Fields> {
    var v := Get(entry, "context");
    if !Truthy(v) then Some(map[]) else if v.Map? then Some(v.fields) else None
  }

  function OrElse(v: Value, fallback: Value): Value {
    if Truthy(v) then v else fallback
  }

  /** What links the context to its cluster and user. */
  function Link(name: Value, body: Fields): Fields {
    var pair := map[Str("cluster") := OrElse(Get(body, "cluster"), name),
                    Str("user") := OrElse(Get(body, "user"), name)];
    if Has(body, "namespace") then pair[Str("namespace") := body[Str("namespace")]] else pair
  }

  /** `_render_single_context`, as a document. */
  function Render(name: Value, body: Fields, cluster: Fields, user: Fields): Value {
    var clusterName, userName := OrElse(Get(body, "cluster"), name), OrElse(Get(body, "user"), name);
    Map(map[Str("apiVersion") := Str("v1"), Str("kind") := Str("Config"), Str("current-context") := name,
            Str("clusters") := List([NamedBody(clusterName, "cluster", Map(cluster))]),
            Str("contexts") := List([NamedBody(name, "context", Map(Link(name, body)))]),
            Str("users") := List(if user != map[] then [NamedBody(userName, "user", Map(user))] else [])])
  }

  function NamedBody(name: Value, key: string, body: Value): Value {
    Map(map[Str("name") := name, Str(key) := body])
  }

  const CLUSTER_FIELDS: seq<PathField> := [CA]
  const USER_FIELDS: seq<PathField> := [CERT, KEY, TOKEN]

  function ClusterBlockers(found: bool, server: Value): seq<Blocker> {
    if !found then [NoCluster] else if !Truthy(server) then [NoServer] else []
  }

  // What the two guesses, provider and region, may raise on; the guesses themselves
  // are not modelled.

  /** `for x in v or []` takes a list, a text or a mapping. */
  predicate Iterable(v: Value) {
    !Truthy(v) || v.List? || v.Str? || v.Map?
  }

  /** Of what it yields only a list's items can be mappings or whole texts that matter. */
  function Items(v: Value): seq<Value> {
    if v.List? then v.items else []
  }

  const EXEC_PROVIDERS: set<string> := {"aws", "aws-iam-authenticator", "gke-gcloud-auth-plugin", "kubelogin"}

  /** `urlparse` on a server that is set. */
  predicate ServerParses(server: Value, w: World) {
    Truthy(server) ==> server.Str? && server.s !in w.refused
  }

  predicate ProviderOk(server: Value, user: Fields, w: World) {
    var exec := Get(user, "exec");
    (exec.Map? && Basename(CommandText(Get(exec.fields, "command"))) in EXEC_PROVIDERS) || ServerParses(server, w)
  }

  /** A `--region r`, `-r r` or `--region=r` among the arguments ends the search. */
  predicate ArgsAnswer(args: seq<Value>) {
    (exists i :: 0 <= i < |args| - 1 && (args[i] == Str("--region") || args[i] == Str("-r"))) ||
    exists i :: 0 <= i < |args| && args[i].Str? && "--region=" <= args[i].s
  }

  /** So does a region variable in the plugin's environment. */
  predicate EnvAnswers(env: seq<Value>) {
    exists i :: 0 <= i < |env| && env[i].Map? &&
      (Get(env[i].fields, "name") == Str("AWS_REGION") || Get(env[i].fields, "name") == Str("AWS_DEFAULT_REGION"))
  }

  predicate RegionOk(server: Value, user: Fields, w: World) {
    var exec := Get(user, "exec");
    if !exec.Map? then ServerParses(server, w)
    else
      var args, env := Get(exec.fields, "args"), Get(exec.fields, "env");
      Iterable(args) &&
      (ArgsAnswer(Items(args)) || (Iterable(env) && (EnvAnswers(Items(env)) || ServerParses(server, w))))
  }

  /** None where Python raises on a malformed entry. */
  function BuildContext(doc: Fields, entry: Fields, base: string, w: World): Option<Context> {
    var name := Get(entry, "name");
    match ContextOf(entry)
    case None => None
    case Some(body) =>
      var cluster := FindNamed(Get(doc, "clusters"), Get(body, "cluster"));
      var user := FindNamed(Get(doc, "users"), Get(body, "user"));
      match (BodyOf(cluster, "cluster"), BodyOf(user, "user"))
      case (Some(clusterBody), Some(userBody)) =>
        (match (InlineAll(clusterBody, CLUSTER_FIELDS, base, w), InlineAll(userBody, USER_FIELDS, base, w))
         case (Inlined(c, b1), Inlined(u, b2)) =>
           var (auth, refused) := ClassifyAuth(u);
           var server := Get(clusterBody, "server");
           if !ProviderOk(server, u, w) || !RegionOk(server, u, w) then None
           else
             Some(Context(name, server, auth, u,
               if cluster.None? then None else Some(Render(name, body, c, u)),
               ClusterBlockers(cluster.Some?, server) + b1 + b2 +
                 (if refused.Some? then [AuthUnsupported(refused.value)] else [])))
         case _ => None)
      case _ => None
  }

  // ---------------------------------------------------------------------
  // Composition with the normaliser
  // ---------------------------------------------------------------------

  lemma InlineOneClears(body: Fields, f: PathField, base: string, w: World)
    requires f.path != f.inline
    requires var r := InlineOne(body, f, base, w); r.Inlined? && r.blockers == []
    ensures !Has(InlineOne(body, f, base, w).body, f.path)
  {
  }

  lemma InlineLast(body: Fields, fields: seq<PathField>, f: PathField, base: string, w: World)
    ensures InlineAll(body, fields + [f], base, w) ==
      match InlineAll(body, fields, base, w)
      case PathRaises => PathRaises
      case Inlined(b, blockers) =>
        match InlineOne(b, f, base, w)
        case PathRaises => PathRaises
        case Inlined(b', more) => Inlined(b', blockers + more)
  {
    assert (fields + [f])[..|fields|] == fields;
    hide InlineOne;
  }

  /** The three fields in turn, none of them blocked. */
  lemma UserSteps(body: Fields, base: string, w: World) returns (b1: Fields, b2: Fields)
    requires var r := InlineAll(body, USER_FIELDS, base, w); r.Inlined? && r.blockers == []
    ensures InlineOne(body, CERT, base, w) == Inlined(b1, [])
    ensures InlineOne(b1, KEY, base, w) == Inlined(b2, [])
    ensures InlineOne(b2, TOKEN, base, w) == Inlined(InlineAll(body, USER_FIELDS, base, w).body, [])
  {
    InlineLast(body, [], CERT, base, w);
    InlineLast(body, [CERT], KEY, base, w);
    InlineLast(body, [CERT, KEY], TOKEN, base, w);
    assert [] + [CERT] == [CERT] && [CERT] + [KEY] == [CERT, KEY] && [CERT, KEY] + [TOKEN] == USER_FIELDS;
    hide InlineOne;
    var r1, r2 := InlineAll(body, [CERT], base, w), InlineAll(body, [CERT, KEY], base, w);
    b1, b2 := r1.body, r2.body;
  }

  /** Inlining that leaves no blocker leaves no path for the normaliser to refuse. */
  lemma InlinedHasNoPaths(body: Fields, base: string, w: World)
    requires var r := InlineAll(body, USER_FIELDS, base, w); r.Inlined? && r.blockers == []
    ensures var u := InlineAll(body, USER_FIELDS, base, w).body;
      !Has(u, CERT.path) && !Has(u, KEY.path) && !Has(u, TOKEN.path)
  {
    var b1, b2 := UserSteps(body, base, w);
    hide InlineAll;
    InlineOneClears(body, CERT, base, w);
    InlineOneClears(b1, KEY, base, w);
    InlineOneClears(b2, TOKEN, base, w);
    OneKeeps(b1, KEY, base, w);
    OneKeeps(b2, TOKEN, base, w);
    hide InlineOne;
  }

  /** Inlining one field leaves every other field as it is. */
  lemma OneKeeps(body: Fields, f: PathField, base: string, w: World)
    requires InlineOne(body, f, base, w).Inlined?
    ensures forall k :: k != f.path && k != f.inline ==> Get(InlineOne(body, f, base, w).body, k) == Get(body, k)
  {
  }

  /** The path has become what its file holds. */
  predicate Replaced(body: Fields, u: Fields, f: PathField, base: string, w: World) {
    Get(body, f.path).Str? && Located(Get(body, f.path).s, base) in w.files &&
    var file := w.files[Located(Get(body, f.path).s, base)];
    Get(u, f.inline) == Str(if f == TOKEN then file.text else file.base64)
  }

  /** Fields that are none of these are as they were. */
  ghost predicate OthersKept(body: Fields, u: Fields, names: set<Value>) {
    forall k :: k in body && k !in names ==> k in u && u[k] == body[k]
  }

  const USER_NAMES: set<Value> := {Str(CERT.path), Str(CERT.inline), Str(KEY.path), Str(KEY.inline),
                                   Str(TOKEN.path), Str(TOKEN.inline)}

  lemma OneKeepsOthers(body: Fields, f: PathField, base: string, w: World)
    requires InlineOne(body, f, base, w).Inlined?
    ensures OthersKept(body, InlineOne(body, f, base, w).body, {Str(f.path), Str(f.inline)})
  {
  }

  lemma OneReplaces(body: Fields, f: PathField, base: string, w: World)
    requires InlineOne(body, f, base, w).Inlined? && InlineOne(body, f, base, w).blockers == []
    requires Has(body, f.path) && (f == TOKEN || !Has(body, f.inline))
    ensures Replaced(body, InlineOne(body, f, base, w).body, f, base, w)
  {
    hide Located;
  }

  lemma ReplacedStays(b: Fields, u: Fields, b': Fields, u': Fields, f: PathField, base: string, w: World)
    requires Replaced(b, u, f, base, w) && Get(b', f.path) == Get(b, f.path) && Get(u', f.inline) == Get(u, f.inline)
    ensures Replaced(b', u', f, base, w)
  {
    hide Get;
    hide Located;
  }

  lemma NamesApart()
    ensures CERT != TOKEN && KEY != TOKEN
    ensures CERT.path != KEY.path && CERT.path != KEY.inline && CERT.inline != KEY.path && CERT.inline != KEY.inline
    ensures CERT.path != TOKEN.path && CERT.path != TOKEN.inline
    ensures CERT.inline != TOKEN.path && CERT.inline != TOKEN.inline
    ensures KEY.path != TOKEN.path && KEY.path != TOKEN.inline
    ensures KEY.inline != TOKEN.path && KEY.inline != TOKEN.inline
  {
  }

  lemma KeptThrice(body: Fields, b1: Fields, b2: Fields, u: Fields)
    requires OthersKept(body, b1, {Str(CERT.path), Str(CERT.inline)})
    requires OthersKept(b1, b2, {Str(KEY.path), Str(KEY.inline)})
    requires OthersKept(b2, u, {Str(TOKEN.path), Str(TOKEN.inline)})
    ensures OthersKept(body, u, USER_NAMES)
  {
  }

  /** What inlining leaves behind, field by field: a nonempty path whose inline form
      was missing has become the file's contents; the token file always wins. */
  lemma InlinedContents(body: Fields, base: string, w: World)
    requires var r := InlineAll(body, USER_FIELDS, base, w); r.Inlined? && r.blockers == []
    ensures var u := InlineAll(body, USER_FIELDS, base, w).body;
      (Has(body, CERT.path) && !Has(body, CERT.inline) ==> Replaced(body, u, CERT, base, w)) &&
      (Has(body, KEY.path) && !Has(body, KEY.inline) ==> Replaced(body, u, KEY, base, w)) &&
      (Has(body, TOKEN.path) ==> Replaced(body, u, TOKEN, base, w)) && OthersKept(body, u, USER_NAMES)
  {
    var b1, b2 := UserSteps(body, base, w);
    NamesApart();
    hide *;
    var u := InlineAll(body, USER_FIELDS, base, w).body;
    OneKeeps(body, CERT, base, w);
    OneKeeps(b1, KEY, base, w);
    OneKeeps(b2, TOKEN, base, w);
    OneKeepsOthers(body, CERT, base, w);
    OneKeepsOthers(b1, KEY, base, w);
    OneKeepsOthers(b2, TOKEN, base, w);
    KeptThrice(body, b1, b2, u);
    if Has(body, CERT.path) && !Has(body, CERT.inline) {
      OneReplaces(body, CERT, base, w);
      ReplacedStays(body, b1, body, u, CERT, base, w);
    }
    if Has(body, KEY.path) && !Has(body, KEY.inline) {
      SameHas(body, b1, KEY.path);
      SameHas(body, b1, KEY.inline);
      OneReplaces(b1, KEY, base, w);
      ReplacedStays(b1, b2, body, u, KEY, base, w);
    }
    if Has(body, TOKEN.path) {
      SameHas(body, b2, TOKEN.path);
      OneReplaces(b2, TOKEN, base, w);
      ReplacedStays(b2, u, body, u, TOKEN, base, w);
    }
  }

  lemma SameHas(a: Fields, b: Fields, key: string)
    requires Get(a, key) == Get(b, key)
    ensures Has(a, key) == Has(b, key)
  {
  }

  lemma CaInlined(body: Fields, base: string, w: World)
    requires var r := InlineAll(body, CLUSTER_FIELDS, base, w); r.Inlined? && r.blockers == []
    ensures !Has(InlineAll(body, CLUSTER_FIELDS, base, w).body, CA.path)
  {
    assert CLUSTER_FIELDS[..0] == [];
    assert InlineAll(body, CLUSTER_FIELDS[..0], base, w) == Inlined(body, []);
    var one := InlineOne(body, CA, base, w);
    assert [] + one.blockers == one.blockers;
    InlineOneClears(body, CA, base, w);
  }

  /** The text of a command: its own, none for what is empty, and none of the allowed names
      for anything that is not text. */
  lemma CommandTextIs(v: Value)
    ensures v.Str? ==> CommandText(v) == v.s
    ensures v in {Null, Bool(false), Num(0), List([]), Map(map[])} ==> CommandText(v) == ""
    ensures !v.Str? ==> CommandText(v) !in MINTABLE && '/' !in CommandText(v)
  {
  }

  /** What makes a pair for `dict`: a list of two, or a text of two characters. */
  lemma PairOfIs(v: Value)
    ensures PairOf(v).Some? <==>
      (v.List? && |v.items| == 2 && !v.items[0].List? && !v.items[0].Map?) || (v.Str? && |v.s| == 2)
    ensures PairOf(v).Some? && v.List? ==> PairOf(v).value == (v.items[0], v.items[1])
    ensures PairOf(v).Some? && v.Str? ==> PairOf(v).value == (Str([v.s[0]]), Str([v.s[1]]))
  {
  }

  /** What is held against a context without a usable cluster. */
  lemma ClusterBlockersAre(server: Value)
    ensures ClusterBlockers(false, server) == [NoCluster]
    ensures ClusterBlockers(true, server) == if Truthy(server) then [] else [NoServer]
  {
  }

  predicate NamesRegion(v: Value) {
    v.Map? && Get(v.fields, "name") in {Str("AWS_REGION"), Str("AWS_DEFAULT_REGION")}
  }

  /** Where the region guess does not raise: the exec arguments can be walked, and they name
      a region, or the environment can be walked and names one, or the server parses. */
  lemma RegionOkIs(server: Value, user: Fields, w: World)
    ensures var exec := Get(user, "exec");
      var parses := !Truthy(server) || (server.Str? && server.s !in w.refused);
      if !exec.Map? then RegionOk(server, user, w) <==> parses
      else
        var args, env := Get(exec.fields, "args"), Get(exec.fields, "env");
        RegionOk(server, user, w) <==>
          (!Truthy(args) || args.List? || args.Str? || args.Map?) &&
          ((args.List? &&
              ((exists i :: 0 <= i < |args.items| - 1 && args.items[i] in {Str("--region"), Str("-r")}) ||
               exists i :: 0 <= i < |args.items| && args.items[i].Str? && "--region=" <= args.items[i].s)) ||
           ((!Truthy(env) || env.List? || env.Str? || env.Map?) &&
            ((env.List? && exists i :: 0 <= i < |env.items| && NamesRegion(env.items[i])) || parses)))
  {
    hide Truthy;
    var exec := Get(user, "exec");
    if exec.Map? {
      var args, env := Get(exec.fields, "args"), Get(exec.fields, "env");
      hide Get;
      assert forall i :: 0 <= i < |Items(args)| ==> Items(args)[i] == args.items[i];
    }
  }

  /** A path is taken as it stands if it is absolute, else from the kubeconfig's directory. */
  lemma LocatedIs(raw: string, base: string)
    ensures raw != "" && raw[0] == '/' ==> Located(raw, base) == raw
    ensures raw == "" || raw[0] != '/' ==> Located(raw, base) == base + "/" + raw
  {
  }

  /** The last component of a path. */
  lemma {:induction false} BasenameIs(a: string, b: string)
    ensures '/' !in b ==> Basename(b) == b && Basename(a + "/" + b) == b
  {
    if '/' !in b {
      var s := a + "/" + b;
      assert s[|a|] == '/';
      if a == "" {
        assert s[1..] == b;
      } else {
        BasenameIs(a[1..], b);
        assert s[1..] == a[1..] + "/" + b;
      }
    }
  }

  /** The first mapping of that name, if the list has one. */
  lemma {:induction false} FindInIs(entries: seq<Value>, name: Value)
    ensures FindIn(entries, name).None? ==>
      forall i :: 0 <= i < |entries| && entries[i].Map? ==> Get(entries[i].fields, "name") != name
    ensures FindIn(entries, name).Some? ==>
      exists i :: 0 <= i < |entries| && entries[i] == Map(FindIn(entries, name).value) &&
        Get(FindIn(entries, name).value, "name") == name &&
        forall j :: 0 <= j < i && entries[j].Map? ==> Get(entries[j].fields, "name") != name
  {
    hide Get;
    if entries != [] {
      var rest := entries[1..];
      FindInIs(rest, name);
      assert forall i :: 0 <= i < |rest| ==> rest[i] == entries[i + 1];
      assert forall i :: 1 <= i < |entries| ==> entries[i] == rest[i - 1];
      if entries[0].Map? && Get(entries[0].fields, "name") == name {
        assert entries[0] == Map(FindIn(entries, name).value);
      } else if FindIn(rest, name).Some? {
        var i :| 0 <= i < |rest| && rest[i] == Map(FindIn(rest, name).value) &&
          forall j :: 0 <= j < i && rest[j].Map? ==> Get(rest[j].fields, "name") != name;
        assert entries[i + 1] == Map(FindIn(rest, name).value);
      }
    }
  }

  /** The auth method: an exec block before a token, a token before a certificate, that
      before a name and password; and only a command that is not one of three is refused. */
  lemma AuthIs(user: Fields)
    ensures var exec := Get(user, "exec");
      ClassifyAuth(user) ==
        if exec.Map? then
          var command := Basename(CommandText(Get(exec.fields, "command")));
          ("exec:" + command,
           if command == "aws" || command == "aws-iam-authenticator" || command == "gke-gcloud-auth-plugin" then None
           else Some(command))
        else if Truthy(Get(user, "token")) then ("token", None)
        else if Truthy(Get(user, "client-certificate-data")) then ("client-certificate", None)
        else if Truthy(Get(user, "username")) && Truthy(Get(user, "password")) then ("basic", None)
        else ("anonymous", None)
  {
    hide Basename;
    hide CommandText;
  }

  /** A path that can be read: none, one beside its inline form, or a file that is there. */
  predicate PathFound(body: Fields, f: PathField, base: string, w: World) {
    !Has(body, f.path) || (f != TOKEN && Has(body, f.inline)) ||
    (Get(body, f.path).Str? && Located(Get(body, f.path).s, base) in w.files)
  }

  lemma OneUnblocked(body: Fields, f: PathField, base: string, w: World)
    requires InlineOne(body, f, base, w).Inlined?
    ensures InlineOne(body, f, base, w).blockers == [] <==> PathFound(body, f, base, w)
    ensures InlineOne(body, f, base, w).blockers != [] ==>
      InlineOne(body, f, base, w) == Inlined(body, [CannotRead(f.path)])
  {
    hide Located;
  }

  lemma OtherFound(body: Fields, f: PathField, g: PathField, base: string, w: World)
    requires InlineOne(body, f, base, w).Inlined?
    requires g.path != f.path && g.path != f.inline && g.inline != f.path && g.inline != f.inline
    ensures PathFound(InlineOne(body, f, base, w).body, g, base, w) <==> PathFound(body, g, base, w)
  {
    OneKeeps(body, f, base, w);
    hide InlineOne;
    hide Located;
  }

  lemma UserUnblocked(body: Fields, base: string, w: World)
    requires InlineAll(body, USER_FIELDS, base, w).Inlined?
    ensures InlineAll(body, USER_FIELDS, base, w).blockers == [] <==>
      PathFound(body, CERT, base, w) && PathFound(body, KEY, base, w) && PathFound(body, TOKEN, base, w)
    ensures Get(InlineAll(body, USER_FIELDS, base, w).body, "exec") == Get(body, "exec")
  {
    InlineLast(body, [], CERT, base, w);
    InlineLast(body, [CERT], KEY, base, w);
    InlineLast(body, [CERT, KEY], TOKEN, base, w);
    assert [] + [CERT] == [CERT] && [CERT] + [KEY] == [CERT, KEY] && [CERT, KEY] + [TOKEN] == USER_FIELDS;
    assert InlineAll(body, [], base, w) == Inlined(body, []);
    ExecApart();
    NamesApart();
    hide InlineAll;
    hide PathFound;
    hide InlineOne;
    var r1, r2 := InlineOne(body, CERT, base, w), InlineOne(InlineOne(body, CERT, base, w).body, KEY, base, w);
    OneUnblocked(body, CERT, base, w);
    OneUnblocked(r1.body, KEY, base, w);
    OneUnblocked(r2.body, TOKEN, base, w);
    OtherFound(body, CERT, KEY, base, w);
    OtherFound(body, CERT, TOKEN, base, w);
    OtherFound(r1.body, KEY, TOKEN, base, w);
    OneKeeps(body, CERT, base, w);
    OneKeeps(r1.body, KEY, base, w);
    OneKeeps(r2.body, TOKEN, base, w);
  }

  lemma ExecApart()
    ensures "exec" !in {CERT.path, CERT.inline, KEY.path, KEY.inline, TOKEN.path, TOKEN.inline}
  {
  }

  /** Which contexts can be adopted: the cluster is found and has a server, every path of
      cluster and user can be read, and the exec command, if any, is one of three. */
  lemma AdoptableExactlyWhen(doc: Fields, entry: Fields, base: string, w: World)
    requires BuildContext(doc, entry, base, w).Some?
    ensures var body := ContextOf(entry).value;
      var cluster := FindNamed(Get(doc, "clusters"), Get(body, "cluster"));
      var user := FindNamed(Get(doc, "users"), Get(body, "user"));
      BodyOf(cluster, "cluster").Some? && BodyOf(user, "user").Some? &&
      var clusterBody, userBody := BodyOf(cluster, "cluster").value, BodyOf(user, "user").value;
      var exec := Get(userBody, "exec");
      (BuildContext(doc, entry, base, w).value.Adoptable() <==>
       cluster.Some? && Has(clusterBody, "server") && PathFound(clusterBody, CA, base, w) &&
       PathFound(userBody, CERT, base, w) && PathFound(userBody, KEY, base, w) && PathFound(userBody, TOKEN, base, w) &&
       (exec.Map? ==> Basename(CommandText(Get(exec.fields, "command"))) in MINTABLE))
  {
    var body := ContextOf(entry).value;
    var cluster := FindNamed(Get(doc, "clusters"), Get(body, "cluster"));
    var user := FindNamed(Get(doc, "users"), Get(body, "user"));
    var clusterBody, userBody := BodyOf(cluster, "cluster").value, BodyOf(user, "user").value;
    InlineLast(clusterBody, [], CA, base, w);
    assert [] + [CA] == CLUSTER_FIELDS && InlineAll(clusterBody, [], base, w) == Inlined(clusterBody, []);
    hide InlineAll;
    OneUnblocked(clusterBody, CA, base, w);
    UserUnblocked(userBody, base, w);
    var ci, ui := InlineAll(clusterBody, CLUSTER_FIELDS, base, w), InlineAll(userBody, USER_FIELDS, base, w);
    SameClassified(userBody, ui.body);
    hide InlineOne;
    hide PathFound;
    hide ClassifyAuth;
    var c := BuildContext(doc, entry, base, w).value;
    assert |c.blockers| == 0 <==>
      |ClusterBlockers(cluster.Some?, Get(clusterBody, "server"))| == 0 && |ci.blockers| == 0 && |ui.blockers| == 0 &&
      ClassifyAuth(ui.body).1.None?;
  }

  lemma SameClassified(user: Fields, other: Fields)
    requires Get(user, "exec") == Get(other, "exec")
    ensures ClassifyAuth(other).1.None? <==>
      (Get(user, "exec").Map? ==> Basename(CommandText(Get(Get(user, "exec").fields, "command"))) in MINTABLE)
  {
    hide Basename;
    hide CommandText;
  }

  /** What a context carries, and the document made of it: a v1 Config of one cluster, one
      context linking it to one user (none if nothing is known of the user), all under the
      names the context uses, with the cluster and user as inlining left them. */
  lemma BuiltIs(doc: Fields, entry: Fields, base: string, w: World)
    requires BuildContext(doc, entry, base, w).Some?
    ensures var c, body := BuildContext(doc, entry, base, w).value, ContextOf(entry).value;
      var cluster := FindNamed(Get(doc, "clusters"), Get(body, "cluster"));
      var user := FindNamed(Get(doc, "users"), Get(body, "user"));
      BodyOf(cluster, "cluster").Some? && BodyOf(user, "user").Some? &&
      var clusterBody, userBody := BodyOf(cluster, "cluster").value, BodyOf(user, "user").value;
      var ci, ui := InlineAll(clusterBody, CLUSTER_FIELDS, base, w), InlineAll(userBody, USER_FIELDS, base, w);
      ci.Inlined? && ui.Inlined? &&
      c.name == Get(entry, "name") && c.apiServer == Get(clusterBody, "server") && c.user == ui.body &&
      c.auth == ClassifyAuth(ui.body).0 && (c.kubeconfig.Some? <==> cluster.Some?) &&
      (c.kubeconfig.Some? ==> IsConfig(c.kubeconfig.value, c.name, body, ci.body, ui.body))
  {
    hide InlineAll;
    hide ClassifyAuth;
    hide ProviderOk;
    hide RegionOk;
    hide IsConfig;
    var c, body := BuildContext(doc, entry, base, w).value, ContextOf(entry).value;
    var cluster := FindNamed(Get(doc, "clusters"), Get(body, "cluster"));
    var user := FindNamed(Get(doc, "users"), Get(body, "user"));
    var clusterBody, userBody := BodyOf(cluster, "cluster").value, BodyOf(user, "user").value;
    var ci, ui := InlineAll(clusterBody, CLUSTER_FIELDS, base, w), InlineAll(userBody, USER_FIELDS, base, w);
    RenderIs(c.name, body, ci.body, ui.body);
    hide Render;
  }

  ghost predicate IsConfig(v: Value, name: Value, body: Fields, cluster: Fields, user: Fields) {
    var clusterName := if Truthy(Get(body, "cluster")) then Get(body, "cluster") else name;
    var userName := if Truthy(Get(body, "user")) then Get(body, "user") else name;
    v.Map? && Get(v.fields, "apiVersion") == Str("v1") && Get(v.fields, "kind") == Str("Config") &&
    Get(v.fields, "current-context") == name &&
    Get(v.fields, "clusters") == List([Map(map[Str("name") := clusterName, Str("cluster") := Map(cluster)])]) &&
    Get(v.fields, "users") ==
      List(if user == map[] then [] else [Map(map[Str("name") := userName, Str("user") := Map(user)])]) &&
    exists link: Fields ::
      Get(v.fields, "contexts") == List([Map(map[Str("name") := name, Str("context") := Map(link)])]) &&
      Get(link, "cluster") == clusterName && Get(link, "user") == userName &&
      Get(link, "namespace") == if Truthy(Get(body, "namespace")) then Get(body, "namespace") else Null
  }

  lemma LinkIs(name: Value, body: Fields)
    ensures var link := Link(name, body);
      Get(link, "cluster") == (if Truthy(Get(body, "cluster")) then Get(body, "cluster") else name) &&
      Get(link, "user") == (if Truthy(Get(body, "user")) then Get(body, "user") else name) &&
      Get(link, "namespace") == if Truthy(Get(body, "namespace")) then Get(body, "namespace") else Null
  {
  }

  lemma RenderIs(name: Value, body: Fields, cluster: Fields, user: Fields)
    ensures IsConfig(Render(name, body, cluster, user), name, body, cluster, user)
  {
    LinkIs(name, body);
    hide Link;
    hide Truthy;
    assert Get(Render(name, body, cluster, user).fields, "contexts")
        == List([Map(map[Str("name") := name, Str("context") := Map(Link(name, body))])]);
  }

  lemma {:induction false} BasenameWhole(s: string)
    ensures '/' !in Basename(s)
    ensures '/' !in s <==> Basename(s) == s
  {
    if '/' in s {
      assert s == [s[0]] + s[1..];
      BasenameWhole(s[1..]);
    }
  }

  /** An exec command named without a directory, or no exec block at all. */
  predicate NoDirectory(user: Fields) {
    var exec := Get(user, "exec");
    exec.Map? ==> '/' !in CommandText(Get(exec.fields, "command"))
  }

  lemma ExecAgreement(user: Fields)
    requires ClassifyAuth(user).1.None?
    ensures CheckExec(user).None? <==> NoDirectory(user)
  {
    var exec := Get(user, "exec");
    if exec.Map? {
      var command := Get(exec.fields, "command");
      MintableNames();
      NoSlashes("?");
      BasenameWhole("?");
      BasenameWhole(CommandText(command));
      hide Basename;
      assert Basename(CommandText(command)) in MINTABLE;
      assert "" !in MINTABLE && "?" !in MINTABLE;
      assert command.Str? && command == exec.fields[Str("command")];
    }
  }

  lemma MintableNames()
    ensures forall n :: n in MINTABLE ==> '/' !in n
    ensures Basename("") == ""
  {
    NoSlashes("aws");
    NoSlashes("aws-iam-authenticator");
    NoSlashes("gke-gcloud-auth-plugin");
  }

  lemma NoSlashes(s: string)
    requires forall i :: 0 <= i < |s| ==> s[i] != '/'
    ensures '/' !in s
  {
  }

  /** A context offered for adoption is accepted by the normaliser exactly when its
      exec command, if it has one, names no directory: discovery goes by the last
      path component, the normaliser by the whole string. */
  lemma AdoptableAcceptedExactlyWhen(doc: Fields, entry: Fields, base: string, w: World)
    requires var c := BuildContext(doc, entry, base, w); c.Some? && c.value.Adoptable()
    ensures var c := BuildContext(doc, entry, base, w).value;
      Normalize(c.kubeconfig.value).Ok? <==> NoDirectory(c.user)
  {
    var c := BuildContext(doc, entry, base, w).value;
    var body := ContextOf(entry).value;
    var cluster := FindNamed(Get(doc, "clusters"), Get(body, "cluster"));
    var user := FindNamed(Get(doc, "users"), Get(body, "user"));
    var clusterBody, userBody := BodyOf(cluster, "cluster").value, BodyOf(user, "user").value;
    var ci := InlineAll(clusterBody, CLUSTER_FIELDS, base, w);
    var ui := InlineAll(userBody, USER_FIELDS, base, w);
    assert ci.blockers == [] && ui.blockers == [] && ClassifyAuth(ui.body).1.None? by {
      hide InlineAll;
      assert |c.blockers| == 0;
    }
    CaInlined(clusterBody, base, w);
    InlinedHasNoPaths(userBody, base, w);
    ExecAgreement(ui.body);
    RenderedAccepted(c.name, body, ci.body, ui.body);
  }

  lemma EntryOfBody(kind: Kind, entry: Value, body: Fields)
    requires entry.Map? && Str("name") in entry.fields && Get(entry.fields, BodyKey(kind)) == Map(body)
    ensures EntryOk(kind, entry) <==> BodyOk(kind, body)
  {
    hide BodyOk;
    assert Truthy(entry);
  }

  lemma RenderedAccepted(name: Value, body: Fields, cluster: Fields, user: Fields)
    ensures Normalize(Render(name, body, cluster, user)).Ok? <==>
      BodyOk(Clusters, cluster) && (user != map[] ==> BodyOk(Users, user))
  {
    var doc := Render(name, body, cluster, user);
    AcceptedExactlyWhen(doc);
    var clusters, users := Get(doc.fields, "clusters"), Get(doc.fields, "users");
    hide BodyOk;
    assert Iterate(clusters) == Some(clusters.items) && |clusters.items| == 1;
    EntryOfBody(Clusters, clusters.items[0], cluster);
    assert Iterate(users) == Some(users.items);
    if user != map[] {
      assert |users.items| == 1;
      EntryOfBody(Users, users.items[0], user);
    }
  }

  // ---------------------------------------------------------------------
  // discover_contexts
  // ---------------------------------------------------------------------

  /** A kubeconfig file: its directory, and what reading it gave. A file that cannot be
      opened and text that is not YAML are skipped. Bytes that are not text, or a scalar
      PyYAML cannot construct (an impossible date), raise something else. */
  datatype Content = Unreadable | LoadRaises | Parsed(doc: Value)
  datatype Source = Source(base: string, content: Content)

  /** A named context entry, with the document it stands in. */
  datatype Definition = Definition(doc: Fields, entry: Fields, base: string)

  function NameOf(d: Definition): Value {
    Get(d.entry, "name")
  }

  /** Names already used, as the `seen` set holds them. */
  function SeenNames(cs: seq<Context>): set<Value> {
    set i | 0 <= i < |cs| :: cs[i].name
  }

  /** Definitions in order: the first of each name is built, later ones are ignored. */
  function FirstOfEach(ds: seq<Definition>, w: World): Option<seq<Context>> {
    if ds == [] then Some([])
    else match FirstOfEach(ds[..|ds| - 1], w)
      case None => None
      case Some(cs) =>
        var d := ds[|ds| - 1];
        if NameOf(d) in SeenNames(cs) then Some(cs)
        else match BuildContext(d.doc, d.entry, d.base, w)
          case None => None
          case Some(c) => Some(cs + [c])
  }

  ghost predicate DistinctNames(cs: seq<Context>) {
    forall i, j :: 0 <= i < j < |cs| ==> cs[i].name != cs[j].name
  }

  /** `c` is what the first definition of its name builds. */
  ghost predicate FromFirst(c: Context, ds: seq<Definition>, w: World) {
    exists i :: 0 <= i < |ds| && NameOf(ds[i]) == c.name &&
      BuildContext(ds[i].doc, ds[i].entry, ds[i].base, w) == Some(c) &&
      forall j :: 0 <= j < i ==> NameOf(ds[j]) != c.name
  }

  lemma {:induction false} FirstWins(ds: seq<Definition>, w: World)
    requires FirstOfEach(ds, w).Some?
    ensures var cs := FirstOfEach(ds, w).value;
      DistinctNames(cs) && (forall c :: c in cs ==> FromFirst(c, ds, w)) &&
      forall i :: 0 <= i < |ds| ==> NameOf(ds[i]) in SeenNames(cs)
  {
    hide BuildContext;
    if ds != [] {
      var init, d := ds[..|ds| - 1], ds[|ds| - 1];
      FirstWins(init, w);
      var before, cs := FirstOfEach(init, w).value, FirstOfEach(ds, w).value;
      assert forall i :: 0 <= i < |init| ==> init[i] == ds[i];
      forall c | c in before ensures FromFirst(c, ds, w) {
        var i :| 0 <= i < |init| && NameOf(init[i]) == c.name &&
          BuildContext(init[i].doc, init[i].entry, init[i].base, w) == Some(c) &&
          forall j :: 0 <= j < i ==> NameOf(init[j]) != c.name;
        assert ds[i] == init[i];
      }
      forall n | n in SeenNames(before) ensures n in SeenNames(cs) {
        var i :| 0 <= i < |before| && before[i].name == n;
        assert cs[i].name == n;
      }
      if NameOf(d) !in SeenNames(before) {
        BuiltName(d, w);
        var c := cs[|before|];
        assert NameOf(ds[|init|]) == c.name;
        forall j | 0 <= j < |init| ensures NameOf(ds[j]) != c.name {
          assert NameOf(init[j]) in SeenNames(before);
        }
        assert FromFirst(c, ds, w);
        forall i | 0 <= i < |before| ensures before[i].name != c.name {
          assert before[i].name in SeenNames(before);
        }
      }
    }
  }

  lemma BuiltName(d: Definition, w: World)
    ensures var c := BuildContext(d.doc, d.entry, d.base, w); c.Some? ==> c.value.name == NameOf(d)
  {
  }

  /** The named entries of one document's list; None where Python raises. */
  function DefinitionsIn(doc: Fields, items: seq<Value>, base: string): Option<seq<Definition>> {
    if items == [] then Some([])
    else match DefinitionsIn(doc, items[..|items| - 1], base)
      case None => None
      case Some(ds) =>
        var entry := items[|items| - 1];
        if !entry.Map? || !Has(entry.fields, "name") then Some(ds)
        else if !Hashable(Get(entry.fields, "name")) then None
        else Some(ds + [Definition(doc, entry.fields, base)])
  }

  function Definitions(sources: seq<Source>): Option<seq<Definition>> {
    if sources == [] then Some([])
    else match Definitions(sources[..|sources| - 1])
      case None => None
      case Some(ds) =>
        var s := sources[|sources| - 1];
        if s.content.LoadRaises? then None
        else if s.content.Unreadable? || !s.content.doc.Map? then Some(ds)
        else
          var fields := s.content.doc.fields;
          var contexts := Get(fields, "contexts");
          if !Iterable(contexts) then None
          else match DefinitionsIn(fields, Items(contexts), s.base)
            case None => None
            case Some(more) => Some(ds + more)
  }

  /** All the contexts, or None where Python raises. */
  function Discovered(sources: seq<Source>, w: World): Option<seq<Context>> {
    match Definitions(sources)
    case None => None
    case Some(ds) => FirstOfEach(ds, w)
  }

  lemma {:induction false} DefinitionsGrow(sources: seq<Source>, k: nat)
    requires k <= |sources| && Definitions(sources).Some?
    ensures Definitions(sources[..k]).Some? && Definitions(sources[..k]).value <= Definitions(sources).value
  {
    if k == |sources| {
      assert sources[..k] == sources;
    } else {
      DefinitionsGrow(sources[..|sources| - 1], k);
      assert sources[..|sources| - 1][..k] == sources[..k];
    }
  }

  lemma {:induction false} DefinitionsInGrow(doc: Fields, items: seq<Value>, base: string, k: nat)
    requires k <= |items| && DefinitionsIn(doc, items, base).Some?
    ensures DefinitionsIn(doc, items[..k], base).Some?
    ensures DefinitionsIn(doc, items[..k], base).value <= DefinitionsIn(doc, items, base).value
  {
    if k == |items| {
      assert items[..k] == items;
    } else {
      DefinitionsInGrow(doc, items[..|items| - 1], base, k);
      assert items[..|items| - 1][..k] == items[..k];
    }
  }

  lemma {:induction false} BuildsBefore(ds: seq<Definition>, k: nat, w: World)
    requires k <= |ds| && FirstOfEach(ds, w).Some?
    ensures FirstOfEach(ds[..k], w).Some?
  {
    hide BuildContext;
    if k == |ds| {
      assert ds[..k] == ds;
    } else {
      BuildsBefore(ds[..|ds| - 1], k, w);
      assert ds[..|ds| - 1][..k] == ds[..k];
    }
  }

  /** Trouble in one document is trouble for the whole call. */
  lemma TroubleSpreads(sources: seq<Source>, i: nat, ds: seq<Definition>, w: World)
    requires i < |sources| && Definitions(sources[..i]) == Some(ds)
    requires !sources[i].content.Unreadable?
    requires sources[i].content.Parsed? ==> sources[i].content.doc.Map?
    requires sources[i].content.Parsed? && Iterable(Get(sources[i].content.doc.fields, "contexts")) ==>
      var doc := sources[i].content.doc.fields;
      Troubled(ds, doc, Items(Get(doc, "contexts")), sources[i].base, w)
    ensures Discovered(sources, w).None?
  {
    hide FirstOfEach;
    if Discovered(sources, w).Some? {
      DefinitionsGrow(sources, i + 1);
      assert sources[..i + 1][..i] == sources[..i];
      var next, all := Definitions(sources[..i + 1]).value, Definitions(sources).value;
      assert all[..|next|] == next;
      BuildsBefore(all, |next|, w);
    }
  }

  /** The items do not all make definitions, or one of these does not build. */
  predicate Troubled(ds: seq<Definition>, doc: Fields, items: seq<Value>, base: string, w: World) {
    var more := DefinitionsIn(doc, items, base);
    more.None? || FirstOfEach(ds + more.value, w).None?
  }

  lemma TroubleStays(ds: seq<Definition>, doc: Fields, items: seq<Value>, k: nat, base: string,
                     w: World)
    requires k <= |items| && Troubled(ds, doc, items[..k], base, w)
    ensures Troubled(ds, doc, items, base, w)
  {
    hide FirstOfEach;
    hide DefinitionsIn;
    if !Troubled(ds, doc, items, base, w) {
      DefinitionsInGrow(doc, items, base, k);
      var some, all := DefinitionsIn(doc, items[..k], base).value, DefinitionsIn(doc, items, base).value;
      assert (ds + all)[..|ds + some|] == ds + some;
      BuildsBefore(ds + all, |ds + some|, w);
    }
  }

  lemma NextSource(sources: seq<Source>, i: nat, ds: seq<Definition>)
    requires i < |sources| && Definitions(sources[..i]) == Some(ds)
    ensures var s := sources[i];
      Definitions(sources[..i + 1]) ==
        if s.content.LoadRaises? then None
        else if s.content.Unreadable? || !s.content.doc.Map? then Some(ds)
        else
          var contexts := Get(s.content.doc.fields, "contexts");
          if !Iterable(contexts) then None
          else match DefinitionsIn(s.content.doc.fields, Items(contexts), s.base)
            case None => None
            case Some(more) => Some(ds + more)
  {
    hide DefinitionsIn;
    assert sources[..i + 1][..i] == sources[..i];
  }

  lemma NoSources(sources: seq<Source>, w: World)
    ensures Definitions(sources[..0]) == Some([]) && FirstOfEach([], w) == Some([])
  {
  }

  lemma DiscoveredIs(sources: seq<Source>, ds: seq<Definition>, w: World)
    requires Definitions(sources) == Some(ds)
    ensures Discovered(sources, w) == FirstOfEach(ds, w)
  {
    hide Definitions;
    hide FirstOfEach;
  }

  /** `discover_contexts`: one context per name, the first definition winning;
      unreadable files are skipped. */
  method DiscoverContexts(sources: seq<Source>, w: World) returns (r: Option<seq<Context>>)
    ensures r == Discovered(sources, w)
    ensures r.Some? ==> DistinctNames(r.value)
  {
    var contexts: seq<Context> := [];
    ghost var ds: seq<Definition> := [];
    NoSources(sources, w);
    hide *;
    for i := 0 to |sources|
      invariant Definitions(sources[..i]) == Some(ds) && FirstOfEach(ds, w) == Some(contexts)
    {
      var s := sources[i];
      NextSource(sources, i, ds);
      if s.content.LoadRaises? {
        TroubleSpreads(sources, i, ds, w);
        return None;
      }
      if s.content.Unreadable? || !s.content.doc.Map? {
        continue;
      }
      var doc := s.content.doc.fields;
      var listed := Get(doc, "contexts");
      if !Iterable(listed) {
        TroubleSpreads(sources, i, ds, w);
        return None;
      }
      var added: Option<seq<Context>>;
      ghost var more;
      added, more := DiscoverIn(contexts, ds, doc, Items(listed), s.base, w);
      if added.None? {
        TroubleSpreads(sources, i, ds, w);
        return None;
      }
      contexts := added.value;
      ds := ds + more;
    }
    assert sources[..|sources|] == sources;
    DiscoveredIs(sources, ds, w);
    FirstWins(ds, w);
    r := Some(contexts);
  }

  lemma NextDefinition(ds: seq<Definition>, d: Definition, w: World)
    requires FirstOfEach(ds, w).Some?
    ensures var cs := FirstOfEach(ds, w).value;
      FirstOfEach(ds + [d], w) ==
        if NameOf(d) in SeenNames(cs) then Some(cs)
        else
          var c := BuildContext(d.doc, d.entry, d.base, w);
          if c.None? then None else Some(cs + [c.value])
  {
    hide BuildContext;
    assert (ds + [d])[..|ds|] == ds;
  }

  /** The definition an item makes, if it makes one. */
  predicate Defines(item: Value) {
    item.Map? && Has(item.fields, "name")
  }

  lemma NextItem(doc: Fields, items: seq<Value>, i: nat, base: string)
    requires i < |items| && DefinitionsIn(doc, items[..i], base).Some?
    ensures var ds, item := DefinitionsIn(doc, items[..i], base).value, items[i];
      DefinitionsIn(doc, items[..i + 1], base) ==
        if !Defines(item) then Some(ds)
        else if !Hashable(Get(item.fields, "name")) then None
        else Some(ds + [Definition(doc, item.fields, base)])
  {
    assert items[..i + 1][..i] == items[..i];
  }

  lemma NotBuilt(ds: seq<Definition>, doc: Fields, items: seq<Value>, k: nat, base: string, w: World)
    requires k <= |items|
    requires DefinitionsIn(doc, items[..k], base).Some? ==>
      FirstOfEach(ds + DefinitionsIn(doc, items[..k], base).value, w).None?
    ensures Troubled(ds, doc, items, base, w)
  {
    hide FirstOfEach;
    hide DefinitionsIn;
    TroubleStays(ds, doc, items, k, base, w);
  }

  lemma Regroup(ds: seq<Definition>, more: seq<Definition>, d: Definition)
    ensures ds + (more + [d]) == ds + more + [d]
  {
  }

  lemma NothingRead(ds: seq<Definition>, doc: Fields, items: seq<Value>, base: string)
    ensures ds + [] == ds && DefinitionsIn(doc, items[..0], base) == Some([])
  {
  }

  method DiscoverIn(before: seq<Context>, ghost ds: seq<Definition>, doc: Fields, items: seq<Value>,
                    base: string, w: World)
    returns (r: Option<seq<Context>>, ghost more: seq<Definition>)
    requires FirstOfEach(ds, w) == Some(before)
    ensures r.Some? ==> DefinitionsIn(doc, items, base) == Some(more) && FirstOfEach(ds + more, w) == r
    ensures r.None? ==> Troubled(ds, doc, items, base, w)
  {
    var contexts := before;
    more := [];
    NothingRead(ds, doc, items, base);
    hide *;
    for i := 0 to |items|
      invariant DefinitionsIn(doc, items[..i], base) == Some(more)
      invariant FirstOfEach(ds + more, w) == Some(contexts)
    {
      NextItem(doc, items, i, base);
      var defines := ItemDefines(items[i]);
      if !defines {
        continue;
      }
      var entry := items[i].fields;
      var name := Get(entry, "name");
      if !Hashable(name) {
        NotBuilt(ds, doc, items, i + 1, base, w);
        return None, more;
      }
      ghost var d := Definition(doc, entry, base);
      NextDefinition(ds + more, d, w);
      Regroup(ds, more, d);
      NameIs(d);
      if name !in SeenNames(contexts) {
        var c := BuildContext(doc, entry, base, w);
        if c.None? {
          NotBuilt(ds, doc, items, i + 1, base, w);
          return None, more;
        }
        contexts := contexts + [c.value];
      }
      more := more + [d];
    }
    assert items[..|items|] == items;
    r := Some(contexts);
  }

  method ItemDefines(item: Value) returns (yes: bool)
    ensures yes == Defines(item) && (yes ==> item.Map?)
  {
    yes := item.Map? && Has(item.fields, "name");
  }

  lemma NameIs(d: Definition)
    ensures NameOf(d) == Get(d.entry, "name")
  {
  }

  // ---------------------------------------------------------------------
  // When it raises
  // ---------------------------------------------------------------------

  /** A path field that is empty, has its inline form beside it, or is a text that a
      file could be called. */
  predicate PathReads(body: Fields, f: PathField) {
    !Has(body, f.path) || (f != TOKEN && Has(body, f.inline)) ||
    (Get(body, f.path).Str? && '\U{00}' !in Get(body, f.path).s)
  }

  /** What Python can take of one context: a mapping or nothing for the context itself,
      what `dict` takes for its cluster and user, texts for their paths, and for the
      guesses a server `urlparse` takes and exec lists that can be walked. */
  predicate Buildable(doc: Fields, entry: Fields, w: World) {
    var context := Get(entry, "context");
    (!Truthy(context) || context.Map?) &&
    var body := if Truthy(context) then context.fields else map[];
    var cluster := BodyValue(FindNamed(Get(doc, "clusters"), Get(body, "cluster")), "cluster");
    var user := BodyValue(FindNamed(Get(doc, "users"), Get(body, "user")), "user");
    DictOk(cluster) && DictOk(user) &&
    var clusterBody, userBody := AsDict(cluster), AsDict(user);
    PathReads(clusterBody, CA) &&
    PathReads(userBody, CERT) && PathReads(userBody, KEY) && PathReads(userBody, TOKEN) &&
    ProviderOk(Get(clusterBody, "server"), userBody, w) && RegionOk(Get(clusterBody, "server"), userBody, w)
  }

  function AsDict(v: Value): Fields
    requires DictOk(v)
  {
    DictExactlyWhen(v);
    DictOf(v).value
  }

  lemma OneInlines(body: Fields, f: PathField, base: string, w: World)
    ensures InlineOne(body, f, base, w).Inlined? <==> PathReads(body, f)
  {
  }

  lemma OtherStillReads(body: Fields, f: PathField, g: PathField, base: string, w: World)
    requires InlineOne(body, f, base, w).Inlined?
    requires g.path != f.path && g.path != f.inline && g.inline != f.path && g.inline != f.inline
    ensures PathReads(InlineOne(body, f, base, w).body, g) <==> PathReads(body, g)
  {
    OneKeeps(body, f, base, w);
    hide InlineOne;
  }

  lemma ClusterInlines(body: Fields, base: string, w: World)
    ensures InlineAll(body, CLUSTER_FIELDS, base, w).Inlined? <==> PathReads(body, CA)
  {
    InlineLast(body, [], CA, base, w);
    assert [] + [CA] == CLUSTER_FIELDS;
    OneInlines(body, CA, base, w);
    hide InlineOne;
  }

  lemma UserInlines(body: Fields, base: string, w: World)
    ensures InlineAll(body, USER_FIELDS, base, w).Inlined? <==>
      PathReads(body, CERT) && PathReads(body, KEY) && PathReads(body, TOKEN)
    ensures InlineAll(body, USER_FIELDS, base, w).Inlined? ==>
      Get(InlineAll(body, USER_FIELDS, base, w).body, "exec") == Get(body, "exec")
  {
    InlineLast(body, [], CERT, base, w);
    InlineLast(body, [CERT], KEY, base, w);
    InlineLast(body, [CERT, KEY], TOKEN, base, w);
    assert [] + [CERT] == [CERT] && [CERT] + [KEY] == [CERT, KEY] && [CERT, KEY] + [TOKEN] == USER_FIELDS;
    OneInlines(body, CERT, base, w);
    if PathReads(body, CERT) {
      var b1 := InlineOne(body, CERT, base, w).body;
      OneKeeps(body, CERT, base, w);
      OtherStillReads(body, CERT, KEY, base, w);
      OtherStillReads(body, CERT, TOKEN, base, w);
      OneInlines(b1, KEY, base, w);
      if PathReads(b1, KEY) {
        var b2 := InlineOne(b1, KEY, base, w).body;
        OneKeeps(b1, KEY, base, w);
        OtherStillReads(b1, KEY, TOKEN, base, w);
        OneInlines(b2, TOKEN, base, w);
        if PathReads(b2, TOKEN) {
          OneKeeps(b2, TOKEN, base, w);
        }
      }
    }
    hide InlineOne;
    hide PathReads;
  }

  /** The guesses look at nothing of the user but its exec block. */
  lemma GuessesByExec(server: Value, user: Fields, other: Fields, w: World)
    requires Get(user, "exec") == Get(other, "exec")
    ensures ProviderOk(server, user, w) <==> ProviderOk(server, other, w)
    ensures RegionOk(server, user, w) <==> RegionOk(server, other, w)
  {
  }

  lemma BuildsExactlyWhen(doc: Fields, entry: Fields, base: string, w: World)
    ensures BuildContext(doc, entry, base, w).Some? <==> Buildable(doc, entry, w)
  {
    var body := ContextOf(entry);
    if body.Some? {
      var cluster := FindNamed(Get(doc, "clusters"), Get(body.value, "cluster"));
      var user := FindNamed(Get(doc, "users"), Get(body.value, "user"));
      DictExactlyWhen(BodyValue(cluster, "cluster"));
      DictExactlyWhen(BodyValue(user, "user"));
      hide DictOk;
      hide DictOf;
      hide InlineAll;
      hide PathReads;
      hide ProviderOk;
      hide RegionOk;
      if BodyOf(cluster, "cluster").Some? && BodyOf(user, "user").Some? {
        var clusterBody, userBody := BodyOf(cluster, "cluster").value, BodyOf(user, "user").value;
        ClusterInlines(clusterBody, base, w);
        UserInlines(userBody, base, w);
        var ui := InlineAll(userBody, USER_FIELDS, base, w);
        if ui.Inlined? {
          GuessesByExec(Get(clusterBody, "server"), ui.body, userBody, w);
        }
      }
    }
  }

  /** A named entry whose name can go into the `seen` set. */
  predicate NameOk(item: Value) {
    item.Map? && Has(item.fields, "name") ==> Hashable(Get(item.fields, "name"))
  }

  predicate SourceOk(s: Source) {
    match s.content
    case Unreadable => true
    case LoadRaises => false
    case Parsed(doc) =>
      doc.Map? ==>
        var contexts := Get(doc.fields, "contexts");
        Iterable(contexts) && forall i :: 0 <= i < |Items(contexts)| ==> NameOk(Items(contexts)[i])
  }

  /** The named entries of a list. */
  function NamedIn(doc: Fields, items: seq<Value>, base: string): seq<Definition> {
    if items == [] then []
    else
      var init, item := NamedIn(doc, items[..|items| - 1], base), items[|items| - 1];
      if item.Map? && Has(item.fields, "name") then init + [Definition(doc, item.fields, base)] else init
  }

  /** The named entries of every file that parsed to a mapping, in order. */
  function AllNamed(sources: seq<Source>): seq<Definition> {
    if sources == [] then []
    else
      var init, s := AllNamed(sources[..|sources| - 1]), sources[|sources| - 1];
      if s.content.Parsed? && s.content.doc.Map?
      then init + NamedIn(s.content.doc.fields, Items(Get(s.content.doc.fields, "contexts")), s.base)
      else init
  }

  /** The named entries of a list, one by one and in order; an entry is a mapping with a
      name that is not empty. */
  lemma {:induction false} NamedInIs(doc: Fields, a: seq<Value>, b: seq<Value>, v: Value, base: string)
    ensures NamedIn(doc, [], base) == [] && NamedIn(doc, a + b, base) == NamedIn(doc, a, base) + NamedIn(doc, b, base)
    ensures NamedIn(doc, [v], base) ==
      if v.Map? && Truthy(Get(v.fields, "name")) then [Definition(doc, v.fields, base)] else []
    decreases |b|
  {
    assert [v][..0] == [];
    if b == [] {
      assert a + b == a && NamedIn(doc, a, base) + NamedIn(doc, b, base) == NamedIn(doc, a, base);
    } else {
      NamedInIs(doc, a, b[..|b| - 1], v, base);
      assert (a + b)[..|a + b| - 1] == a + b[..|b| - 1];
    }
  }

  /** The contexts of every file that holds a mapping, file after file. */
  lemma {:induction false} AllNamedIs(a: seq<Source>, b: seq<Source>, s: Source)
    ensures AllNamed([]) == [] && AllNamed(a + b) == AllNamed(a) + AllNamed(b)
    ensures AllNamed([s]) ==
      if s.content.Parsed? && s.content.doc.Map? && Get(s.content.doc.fields, "contexts").List?
      then NamedIn(s.content.doc.fields, Get(s.content.doc.fields, "contexts").items, s.base) else []
    decreases |b|
  {
    OneFileNamed(s);
    hide NamedIn;
    hide Get;
    if b == [] {
      assert a + b == a && AllNamed(a) + AllNamed(b) == AllNamed(a);
    } else {
      AllNamedIs(a, b[..|b| - 1], s);
      assert (a + b)[..|a + b| - 1] == a + b[..|b| - 1];
    }
  }

  lemma OneFileNamed(s: Source)
    ensures AllNamed([s]) ==
      if s.content.Parsed? && s.content.doc.Map? && Get(s.content.doc.fields, "contexts").List?
      then NamedIn(s.content.doc.fields, Get(s.content.doc.fields, "contexts").items, s.base) else []
  {
    assert [s][..0] == [] && AllNamed([s][..0]) == [];
    hide Get;
    if s.content.Parsed? && s.content.doc.Map? {
      var listed := Get(s.content.doc.fields, "contexts");
      var more := NamedIn(s.content.doc.fields, Items(listed), s.base);
      assert [] + more == more;
      assert !listed.List? ==> more == [];
    }
  }

  lemma {:induction false} DefinitionsInExactlyWhen(doc: Fields, items: seq<Value>, base: string)
    ensures DefinitionsIn(doc, items, base) ==
      if forall i :: 0 <= i < |items| ==> NameOk(items[i]) then Some(NamedIn(doc, items, base)) else None
  {
    if items != [] {
      var init := items[..|items| - 1];
      DefinitionsInExactlyWhen(doc, init, base);
      assert forall i :: 0 <= i < |init| ==> init[i] == items[i];
    }
  }

  lemma {:induction false} DefinitionsExactlyWhen(sources: seq<Source>)
    ensures Definitions(sources) ==
      if forall i :: 0 <= i < |sources| ==> SourceOk(sources[i]) then Some(AllNamed(sources)) else None
  {
    hide NameOk;
    hide DefinitionsIn;
    hide NamedIn;
    if sources != [] {
      var init, s := sources[..|sources| - 1], sources[|sources| - 1];
      DefinitionsExactlyWhen(init);
      assert forall i :: 0 <= i < |init| ==> init[i] == sources[i];
      if s.content.Parsed? && s.content.doc.Map? {
        var doc := s.content.doc.fields;
        DefinitionsInExactlyWhen(doc, Items(Get(doc, "contexts")), s.base);
      }
    }
  }

  /** The first definition of its name, the only one that is built. */
  ghost predicate IsFirst(ds: seq<Definition>, i: nat)
    requires i < |ds|
  {
    forall j :: 0 <= j < i ==> NameOf(ds[j]) != NameOf(ds[i])
  }

  ghost predicate FirstsBuild(ds: seq<Definition>, w: World) {
    forall i :: 0 <= i < |ds| && IsFirst(ds, i) ==> Buildable(ds[i].doc, ds[i].entry, w)
  }

  lemma FirstsAppend(ds: seq<Definition>, d: Definition, w: World)
    ensures FirstsBuild(ds + [d], w) <==>
      FirstsBuild(ds, w) &&
      ((exists j :: 0 <= j < |ds| && NameOf(ds[j]) == NameOf(d)) || Buildable(d.doc, d.entry, w))
  {
    hide Buildable;
    var all := ds + [d];
    assert all[|ds|] == d && forall i :: 0 <= i < |ds| ==> all[i] == ds[i];
    assert forall i :: 0 <= i < |ds| ==> (IsFirst(ds, i) <==> IsFirst(all, i));
  }

  lemma {:induction false} FirstsExactlyWhen(ds: seq<Definition>, w: World)
    ensures FirstOfEach(ds, w).Some? <==> FirstsBuild(ds, w)
  {
    hide BuildContext;
    hide Buildable;
    if ds != [] {
      var init, d := ds[..|ds| - 1], ds[|ds| - 1];
      FirstsExactlyWhen(init, w);
      BuildsExactlyWhen(d.doc, d.entry, d.base, w);
      assert ds == init + [d];
      FirstsAppend(init, d, w);
      if FirstOfEach(init, w).Some? {
        NextDefinition(init, d, w);
        SeenByFirst(init, d, w);
      }
      hide SeenNames;
      hide FirstsBuild;
      hide NameOf;
    }
  }

  lemma SeenByFirst(ds: seq<Definition>, d: Definition, w: World)
    requires FirstOfEach(ds, w).Some?
    ensures NameOf(d) in SeenNames(FirstOfEach(ds, w).value) <==>
      exists j :: 0 <= j < |ds| && NameOf(ds[j]) == NameOf(d)
  {
    FirstWins(ds, w);
    hide BuildContext;
    hide FirstOfEach;
    var cs := FirstOfEach(ds, w).value;
    if NameOf(d) in SeenNames(cs) {
      var i :| 0 <= i < |cs| && cs[i].name == NameOf(d);
      assert cs[i] in cs;
      assert FromFirst(cs[i], ds, w);
    }
  }

  /** `discover_contexts` completes exactly when every file it reads is text, every
      mapping's `contexts` can be walked, every name in them can be looked up, and the
      first definition of each name is one Python can build a context from. Later
      definitions of a name are never looked into. */
  lemma DiscoversExactlyWhen(sources: seq<Source>, w: World)
    ensures Discovered(sources, w).Some? <==>
      (forall i :: 0 <= i < |sources| ==> SourceOk(sources[i])) && FirstsBuild(AllNamed(sources), w)
  {
    DefinitionsExactlyWhen(sources);
    FirstsExactlyWhen(AllNamed(sources), w);
  }

  function OneFile(contexts: Value, clusters: Value): seq<Source> {
    [Source("/root/.kube", Parsed(Map(map[Str("contexts") := contexts, Str("clusters") := clusters])))]
  }

  lemma OneNamed(context: Fields, clusters: Value)
    requires Has(context, "name")
    ensures var sources := OneFile(List([Map(context)]), clusters);
      AllNamed(sources) == [Definition(sources[0].content.doc.fields, context, "/root/.kube")]
  {
    var sources := OneFile(List([Map(context)]), clusters);
    var doc := sources[0].content.doc.fields;
    assert sources[..0] == [] && AllNamed(sources[..0]) == [];
    assert [Map(context)][..0] == [] && NamedIn(doc, [Map(context)][..0], "/root/.kube") == [];
    assert NamedIn(doc, [Map(context)], "/root/.kube") == [Definition(doc, context, "/root/.kube")];
  }

  /** One context whose cluster gives a number for its server: the whole call raises. */
  lemma NumericServerRaises(w: World)
    ensures var context := map[Str("name") := Str("a"), Str("context") := Map(map[Str("cluster") := Str("c")])];
      var cluster := map[Str("name") := Str("c"), Str("cluster") := Map(map[Str("server") := Num(5)])];
      Discovered(OneFile(List([Map(context)]), List([Map(cluster)])), w).None?
  {
    var context: Fields := map[Str("name") := Str("a"), Str("context") := Map(map[Str("cluster") := Str("c")])];
    var body: Fields := map[Str("server") := Num(5)];
    var cluster: Fields := map[Str("name") := Str("c"), Str("cluster") := Map(body)];
    var sources := OneFile(List([Map(context)]), List([Map(cluster)]));
    var doc := sources[0].content.doc.fields;
    OneNamed(context, List([Map(cluster)]));
    hide AllNamed;
    hide Discovered;
    hide SourceOk;
    assert FindNamed(Get(doc, "clusters"), Str("c")) == Some(cluster);
    assert !ServerParses(Num(5), w);
    assert FindNamed(Get(doc, "users"), Null) == None;
    assert !Buildable(doc, context, w);
    assert IsFirst(AllNamed(sources), 0);
    DiscoversExactlyWhen(sources, w);
  }

  /** A text for the list of contexts is walked, letter by letter, and gives none. */
  lemma TextContextsSkipped(w: World)
    ensures Discovered(OneFile(Str("x"), Null), w) == Some([])
  {
    var sources := OneFile(Str("x"), Null);
    assert sources[..0] == [] && Definitions(sources[..0]) == Some([]);
    assert Definitions(sources) == Some([] + []);
  }
}
