/** The two places that build LogQL from an operator's filters. */
module LogQueries {
  import opened Bytes
  import opened LogQl

  /** `str.replace` of a single character. */
  function Replace(s: string, c: char, with: string): string {
    if s == "" then "" else (if s[0] == c then with else [s[0]]) + Replace(s[1..], c, with)
  }

  /** `value.replace("\\", "\\\\").replace('"', '\\"')`, as both services write it. */
  function Escape(value: string): string {
    Replace(Replace(value, '\\', "\\\\"), '"', "\\\"")
  }

  function EscapeChar(c: char): string {
    if c == '\\' then "\\\\" else if c == '"' then "\\\"" else [c]
  }

  function EscapeEach(value: string): string {
    if value == "" then "" else EscapeChar(value[0]) + EscapeEach(value[1..])
  }

  lemma ReplaceCons(s: string, c: char, with: string)
    requires s != ""
    ensures Replace(s, c, with) == (if s[0] == c then with else [s[0]]) + Replace(s[1..], c, with)
  {
  }

  lemma Regroup(a: string, b: string, c: string)
    ensures a + (b + c) == a + b + c
  {
  }

  lemma {:induction false} ReplaceAppend(a: string, b: string, c: char, with: string)
    ensures Replace(a + b, c, with) == Replace(a, c, with) + Replace(b, c, with)
  {
    if a == "" {
      assert a + b == b;
    } else {
      ReplaceAppend(a[1..], b, c, with);
      assert (a + b)[1..] == a[1..] + b;
      hide Replace;
      ReplaceCons(a, c, with);
      ReplaceCons(a + b, c, with);
      Regroup(if a[0] == c then with else [a[0]], Replace(a[1..], c, with), Replace(b, c, with));
    }
  }

  /** The two successive replacements are one substitution per character: the second
      never sees a quote the first made, nor touches its backslashes. */
  lemma {:induction false} EscapeIsPerCharacter(value: string)
    ensures Escape(value) == EscapeEach(value)
  {
    if value != "" {
      EscapeIsPerCharacter(value[1..]);
      var first := if value[0] == '\\' then "\\\\" else [value[0]];
      ReplaceAppend(first, Replace(value[1..], '\\', "\\\\"), '"', "\\\"");
      assert first == "\\\\" ==> first[1..] == "\\" && first[1..][1..] == "";
      assert Replace(first, '"', "\\\"") == EscapeChar(value[0]);
    }
  }

  predicate Quotable(s: string) {
    forall c :: c in s ==> !Refused(c)
  }

  lemma {:induction false} ReadEscapeEach(value: string, rest: string)
    ensures ReadString(EscapeEach(value) + "\"" + rest)
         == if Quotable(value) then Some((value, rest)) else None
  {
    var s := EscapeEach(value) + "\"" + rest;
    if value == "" {
      assert s == "\"" + rest && s[1..] == rest;
    } else {
      var more := EscapeEach(value[1..]) + "\"" + rest;
      assert s == EscapeChar(value[0]) + more;
      ReadEscapeEach(value[1..], rest);
      assert value == [value[0]] + value[1..];
      if value[0] == '\\' || value[0] == '"' {
        assert s[2..] == more;
      } else {
        assert s[1..] == more;
      }
    }
  }

  /** A quoted value reads back as itself, whatever quotes and backslashes it holds,
      exactly when it holds no newline and no NUL; otherwise the query does not read at all. */
  lemma QuotedReadsBack(value: string, rest: string)
    ensures ReadString(Escape(value) + "\"" + rest)
         == if Quotable(value) then Some((value, rest)) else None
  {
    EscapeIsPerCharacter(value);
    ReadEscapeEach(value, rest);
  }

  // ---------------------------------------------------------------------
  // Selectors
  // ---------------------------------------------------------------------

  function OpText(op: Op): string {
    match op case Eq => "=" case Neq => "!=" case Re => "=~" case NotRe => "!~"
  }

  function Part(m: Matcher): string {
    m.name + OpText(m.op) + "\"" + Escape(m.value) + "\""
  }

  /** `", ".join(parts)`. */
  function JoinComma(parts: seq<string>): string {
    if parts == [] then ""
    else if |parts| == 1 then parts[0]
    else parts[0] + ", " + JoinComma(parts[1..])
  }

  function Parts(ms: seq<Matcher>): (ps: seq<string>)
    ensures |ps| == |ms|
  {
    seq(|ms|, i requires 0 <= i < |ms| => Part(ms[i]))
  }

  function Selector(ms: seq<Matcher>): string {
    "{" + JoinComma(Parts(ms)) + "}"
  }

  predicate GoodLabel(name: string) {
    name != "" && forall c :: c in name ==> IdentChar(c)
  }

  predicate AllQuotable(ms: seq<Matcher>) {
    forall i :: 0 <= i < |ms| ==> Quotable(ms[i].value)
  }

  lemma {:induction false} ReadIdentOf(name: string, rest: string)
    requires forall c :: c in name ==> IdentChar(c)
    requires rest == "" || !IdentChar(rest[0])
    ensures ReadIdent(name + rest) == (name, rest)
  {
    if name == "" {
      assert name + rest == rest;
    } else {
      ReadIdentOf(name[1..], rest);
      assert (name + rest)[1..] == name[1..] + rest;
      assert name == [name[0]] + name[1..];
    }
  }

  lemma ReadOpOf(op: Op, rest: string)
    ensures ReadOp(OpText(op) + "\"" + rest) == Some((op, "\"" + rest))
  {
    var s := OpText(op) + "\"" + rest;
    assert s[|OpText(op)|..] == "\"" + rest;
    match op
    case Eq => assert s[0] == '=' && s[1] == '"' && "=~"[1] == '~';
    case Neq => assert s[0] == '!' && s[1] == '=' && "=~"[0] == '=' && "!~"[1] == '~' && "!=" == s[..2];
    case Re => assert "=~" == s[..2];
    case NotRe => assert s[0] == '!' && "=~"[0] == '=' && "!~" == s[..2];
  }

  lemma ReadPart(m: Matcher, rest: string)
    requires GoodLabel(m.name)
    ensures ReadMatcher(Part(m) + rest) == if Quotable(m.value) then Some((m, rest)) else None
  {
    var value := Escape(m.value) + "\"" + rest;
    var afterLabel := OpText(m.op) + "\"" + value;
    assert Part(m) + rest == m.name + afterLabel;
    ReadIdentOf(m.name, afterLabel);
    ReadOpOf(m.op, value);
    assert ("\"" + value)[1..] == value;
    QuotedReadsBack(m.value, rest);
  }

  lemma {:induction false} ReadJoined(ms: seq<Matcher>, rest: string)
    requires ms != [] && forall i :: 0 <= i < |ms| ==> GoodLabel(ms[i].name)
    ensures ReadMatchers(JoinComma(Parts(ms)) + "}" + rest)
         == if AllQuotable(ms) then Some((ms, rest)) else None
  {
    hide ReadMatcher;
    hide Part;
    var s := JoinComma(Parts(ms)) + "}" + rest;
    if |ms| == 1 {
      ReadPart(ms[0], "}" + rest);
      assert s == Part(ms[0]) + ("}" + rest);
      assert ("}" + rest)[1..] == rest;
      assert ms == [ms[0]];
    } else {
      ReadJoined(ms[1..], rest);
      assert Parts(ms)[1..] == Parts(ms[1..]);
      var more := JoinComma(Parts(ms[1..])) + "}" + rest;
      ReadPart(ms[0], ", " + more);
      assert s == Part(ms[0]) + (", " + more);
      assert (", " + more)[1..] == " " + more && (" " + more)[1..] == more;
      PartStart(ms[1..], rest);
      assert SkipSpaces(" " + more) == more;
      assert ms == [ms[0]] + ms[1..];
      assert AllQuotable(ms) <==> Quotable(ms[0].value) && AllQuotable(ms[1..]) by {
        assert forall i :: 1 <= i < |ms| ==> ms[i] == ms[1..][i - 1];
      }
    }
  }

  lemma PartStart(ms: seq<Matcher>, rest: string)
    requires ms != [] && GoodLabel(ms[0].name)
    ensures var s := JoinComma(Parts(ms)) + "}" + rest; s != "" && s[0] != ' '
  {
    assert ms[0].name[0] in ms[0].name;
    assert Part(ms[0])[0] == ms[0].name[0];
    assert JoinComma(Parts(ms))[0] == Part(ms[0])[0];
  }

  /** The selector both services render, followed by any pipeline text. */
  lemma SelectorReadsBack(ms: seq<Matcher>, rest: string)
    requires ms != [] && forall i :: 0 <= i < |ms| ==> GoodLabel(ms[i].name)
    ensures ReadQuery(Selector(ms) + rest)
         == if AllQuotable(ms) then ReadPipeline(ms, rest) else None
  {
    ReadJoined(ms, rest);
    assert (Selector(ms) + rest)[1..] == JoinComma(Parts(ms)) + "}" + rest;
  }

  function LineFilter(needle: string): string {
    " |= \"" + Escape(needle) + "\""
  }

  lemma LineFilterReadsBack(ms: seq<Matcher>, needle: string, rest: string)
    ensures ReadPipeline(ms, LineFilter(needle) + rest)
         == if Quotable(needle) then Some(Query(ms, Some(needle), rest)) else None
  {
    var s := LineFilter(needle) + rest;
    var value := Escape(needle) + "\"" + rest;
    var t := "|= \"" + value;
    assert s == " " + t && s[1..] == t;
    assert SkipSpaces(t) == t;
    assert SkipSpaces(s) == t;
    assert t[2..] == " \"" + value && t[2..][1..] == "\"" + value;
    assert SkipSpaces("\"" + value) == "\"" + value;
    assert SkipSpaces(t[2..]) == "\"" + value;
    assert ("\"" + value)[1..] == value;
    QuotedReadsBack(needle, rest);
  }

  // ---------------------------------------------------------------------
  // logs_service.build_query
  // ---------------------------------------------------------------------

  /** The characters `str.strip()` removes. */
  predicate IsSpace(c: char) {
    '\t' <= c <= '\r' || '\U{1C}' <= c <= ' ' || c == '\U{85}' || c == '\U{A0}' || c == '\U{1680}' ||
    '\U{2000}' <= c <= '\U{200A}' || c == '\U{2028}' || c == '\U{2029}' || c == '\U{202F}' ||
    c == '\U{205F}' || c == '\U{3000}'
  }

  lemma SpaceIs(c: char)
    ensures IsSpace(c) <==>
      9 <= c as int <= 13 || 28 <= c as int <= 32 || 8192 <= c as int <= 8202 ||
      c as int in {133, 160, 5760, 8232, 8233, 8239, 8287, 12288}
  {
  }

  function Strip(s: string): (r: string)
    ensures r != "" ==> !IsSpace(r[0]) && !IsSpace(r[|r| - 1])
    ensures r == "" <==> forall c :: c in s ==> IsSpace(c)
  {
    if s == "" then ""
    else if IsSpace(s[0]) then
      assert forall c :: c in s <==> c == s[0] || c in s[1..];
      Strip(s[1..])
    else if IsSpace(s[|s| - 1]) then Strip(s[..|s| - 1])
    else s
  }

  /** What is left lies together in the text, with nothing but space around it. */
  lemma {:induction false} StripIs(s: string) returns (i: nat, j: nat)
    ensures i <= j <= |s| && Strip(s) == s[i..j]
    ensures forall k :: 0 <= k < i || j <= k < |s| ==> IsSpace(s[k])
    decreases |s|
  {
    StripStep(s);
    hide *;
    i, j := 0, |s|;
    if s != "" && IsSpace(s[0]) {
      i, j := StripIs(s[1..]);
      assert s[1..][i..j] == s[i + 1..j + 1];
      assert forall k :: 1 <= k < |s| ==> s[k] == s[1..][k - 1];
      i, j := i + 1, j + 1;
    } else if s != "" && IsSpace(s[|s| - 1]) {
      i, j := StripIs(s[..|s| - 1]);
      assert s[..|s| - 1][i..j] == s[i..j];
      assert forall k :: 0 <= k < |s| - 1 ==> s[k] == s[..|s| - 1][k];
    }
  }

  lemma StripStep(s: string)
    ensures Strip(s) ==
      if s == "" then "" else if IsSpace(s[0]) then Strip(s[1..])
      else if IsSpace(s[|s| - 1]) then Strip(s[..|s| - 1]) else s
  {
    hide IsSpace;
  }

  /** Matchers for the filters that are set; `""` stands for an absent one too. */
  function Filters(pairs: seq<(string, string)>): seq<Matcher> {
    if pairs == [] then []
    else
      var init, last := Filters(pairs[..|pairs| - 1]), pairs[|pairs| - 1];
      if last.1 == "" then init else init + [Matcher(last.0, Eq, last.1)]
  }

  lemma {:induction false} FiltersGood(pairs: seq<(string, string)>)
    requires forall i :: 0 <= i < |pairs| ==> GoodLabel(pairs[i].0)
    ensures forall i :: 0 <= i < |Filters(pairs)| ==> GoodLabel(Filters(pairs)[i].name)
  {
    if pairs != [] {
      FiltersGood(pairs[..|pairs| - 1]);
    }
  }

  /** One matcher for each filter that is set, in order, and no other. */
  lemma {:induction false} FiltersIs(a: seq<(string, string)>, b: seq<(string, string)>, p: (string, string))
    ensures Filters([]) == [] && Filters(a + b) == Filters(a) + Filters(b)
    ensures Filters([p]) == if p.1 == "" then [] else [Matcher(p.0, Eq, p.1)]
    decreases |b|
  {
    assert [p][..0] == [];
    if b == [] {
      assert a + b == a && Filters(a) + Filters(b) == Filters(a);
    } else {
      FiltersIs(a, b[..|b| - 1], p);
      assert (a + b)[..|a + b| - 1] == a + b[..|b| - 1];
    }
  }

  /** With no filter set, the one matcher every line meets. */
  lemma WantedIs(pairs: seq<(string, string)>)
    ensures Wanted(pairs) ==
      if forall i :: 0 <= i < |pairs| ==> pairs[i].1 == "" then [Matcher("cluster", Re, ".+")] else Filters(pairs)
  {
    FiltersNone(pairs);
    hide Filters;
  }

  lemma {:induction false} FiltersNone(pairs: seq<(string, string)>)
    ensures Filters(pairs) == [] <==> forall i :: 0 <= i < |pairs| ==> pairs[i].1 == ""
  {
    if pairs != [] {
      FiltersNone(pairs[..|pairs| - 1]);
    }
  }

  const EVERY_STREAM: Matcher := Matcher("cluster", Re, ".+")

  /** What the filters ask for; with none set, the label every line carries. */
  function Wanted(pairs: seq<(string, string)>): (ms: seq<Matcher>)
    ensures ms != []
  {
    if Filters(pairs) == [] then [EVERY_STREAM] else Filters(pairs)
  }

  lemma EveryStreamPart()
    ensures Part(EVERY_STREAM) == "cluster=~\".+\""
  {
    EscapeIsPerCharacter(".+");
    assert ".+"[1..] == "+" && "+"[1..] == "";
    assert EscapeEach("+") == "+" && EscapeEach(".+") == ".+";
  }

  method Select(pairs: seq<(string, string)>) returns (selectors: seq<string>)
    ensures selectors == Parts(Wanted(pairs))
  {
    selectors := [];
    for i := 0 to |pairs|
      invariant selectors == Parts(Filters(pairs[..i]))
    {
      assert pairs[..i + 1][..i] == pairs[..i];
      var (name, value) := pairs[i];
      if value != "" {
        var escaped := Replace(Replace(value, '\\', "\\\\"), '"', "\\\"");
        selectors := selectors + [name + "=\"" + escaped + "\""];
        assert Part(Matcher(name, Eq, value)) == name + "=\"" + escaped + "\"";
      }
    }
    assert pairs[..|pairs|] == pairs;
    if selectors == [] {
      EveryStreamPart();
      selectors := ["cluster=~\".+\""];
    }
  }

  function LabelPairs(cluster: string, namespace: string, pod: string, container: string, level: string):
    seq<(string, string)>
  {
    [("cluster", cluster), ("namespace", namespace), ("pod", pod), ("container", container), ("level", level)]
  }

  lemma LabelPairsGood(cluster: string, namespace: string, pod: string, container: string, level: string)
    ensures var pairs := LabelPairs(cluster, namespace, pod, container, level);
      forall i :: 0 <= i < |pairs| ==> GoodLabel(pairs[i].0)
  {
    assert GoodLabel("cluster") && GoodLabel("namespace") && GoodLabel("pod");
    assert GoodLabel("container") && GoodLabel("level");
    hide GoodLabel;
  }

  lemma WantedGood(pairs: seq<(string, string)>)
    requires forall i :: 0 <= i < |pairs| ==> GoodLabel(pairs[i].0)
    ensures forall i :: 0 <= i < |Wanted(pairs)| ==> GoodLabel(Wanted(pairs)[i].name)
  {
    FiltersGood(pairs);
  }

  lemma SelectorText(selectors: seq<string>, ms: seq<Matcher>)
    requires selectors == Parts(ms)
    ensures "{" + JoinComma(selectors) + "}" == Selector(ms)
  {
  }

  lemma BareReadsBack(ms: seq<Matcher>)
    requires ms != [] && forall i :: 0 <= i < |ms| ==> GoodLabel(ms[i].name)
    ensures ReadQuery(Selector(ms)) == if AllQuotable(ms) then Some(Query(ms, None, "")) else None
  {
    assert Selector(ms) + "" == Selector(ms);
    SelectorReadsBack(ms, "");
    assert ReadPipeline(ms, "") == Some(Query(ms, None, ""));
  }

  lemma FilteredReadsBack(ms: seq<Matcher>, needle: string, escaped: string)
    requires ms != [] && forall i :: 0 <= i < |ms| ==> GoodLabel(ms[i].name)
    requires escaped == Replace(Replace(needle, '\\', "\\\\"), '"', "\\\"")
    ensures ReadQuery(Selector(ms) + (" |= \"" + escaped + "\"")) ==
      if AllQuotable(ms) && Quotable(needle) then Some(Query(ms, Some(needle), "")) else None
  {
    assert " |= \"" + escaped + "\"" == LineFilter(needle);
    hide *;
    assert LineFilter(needle) + "" == LineFilter(needle);
    SelectorReadsBack(ms, LineFilter(needle));
    LineFilterReadsBack(ms, needle, "");
  }

  /** A hand-written query passes through. Otherwise a LogQL reader finds exactly the
      given label/value pairs in order and the stripped search text, if and only if
      none of them holds a newline or a NUL; with one, the query is not LogQL at all. */
  method BuildQuery(cluster: string, namespace: string, pod: string, container: string, level: string,
                    search: string, logql: string)
    returns (query: string)
    ensures Strip(logql) != "" ==> query == Strip(logql)
    ensures Strip(logql) == "" ==>
      var ms := Wanted([("cluster", cluster), ("namespace", namespace), ("pod", pod), ("container", container),
                        ("level", level)]);
      var needle := Strip(search);
      ReadQuery(query) ==
        if AllQuotable(ms) && Quotable(needle)
        then Some(Query(ms, if needle == "" then None else Some(needle), ""))
        else None
  {
    if Strip(logql) != "" {
      return Strip(logql);
    }
    var pairs := [("cluster", cluster), ("namespace", namespace), ("pod", pod),
                  ("container", container), ("level", level)];
    var selectors := Select(pairs);
    query := "{" + JoinComma(selectors) + "}";
    ghost var ms := Wanted(pairs);
    assert pairs == LabelPairs(cluster, namespace, pod, container, level);
    LabelPairsGood(cluster, namespace, pod, container, level);
    WantedGood(pairs);
    SelectorText(selectors, ms);
    hide *;
    if Strip(search) != "" {
      var needle := Replace(Replace(Strip(search), '\\', "\\\\"), '"', "\\\"");
      query := query + (" |= \"" + needle + "\"");
      FilteredReadsBack(ms, Strip(search), needle);
    } else {
      BareReadsBack(ms);
    }
  }

  // ---------------------------------------------------------------------
  // The LLM request log's selector and query
  // ---------------------------------------------------------------------

  const JOB: Matcher := Matcher("job", Eq, "llm-gateway")

  /** Nothing to escape: the shape of the constant `2..` the callers interpolate raw. */
  predicate Plain(s: string) {
    forall i :: 0 <= i < |s| ==> s[i] != '\\' && s[i] != '"' && !Refused(s[i])
  }

  lemma {:induction false} PlainNeedsNoEscape(s: string)
    requires Plain(s)
    ensures Escape(s) == s
  {
    EscapeIsPerCharacter(s);
    if s != "" {
      assert s == [s[0]] + s[1..];
      PlainNeedsNoEscape(s[1..]);
      EscapeIsPerCharacter(s[1..]);
    }
  }

  function RequestMatchers(model: string, status: string, statusRe: string, notStatusRe: string): seq<Matcher> {
    [JOB] +
    (if model == "" then [] else [Matcher("model", Eq, model)]) +
    (if status == "" then [] else [Matcher("status", Eq, status)]) +
    (if statusRe == "" then [] else [Matcher("status", Re, statusRe)]) +
    (if notStatusRe == "" then [] else [Matcher("status", NotRe, notStatusRe)])
  }

  /** Which matchers a request log asks for. */
  lemma RequestMatchersMean(model: string, status: string, statusRe: string, notStatusRe: string, m: Matcher)
    ensures m in RequestMatchers(model, status, statusRe, notStatusRe) <==>
      m == Matcher("job", Eq, "llm-gateway") || (model != "" && m == Matcher("model", Eq, model)) ||
      (status != "" && m == Matcher("status", Eq, status)) ||
      (statusRe != "" && m == Matcher("status", Re, statusRe)) ||
      (notStatusRe != "" && m == Matcher("status", NotRe, notStatusRe))
    ensures |RequestMatchers(model, status, statusRe, notStatusRe)| ==
      1 + (if model == "" then 0 else 1) + (if status == "" then 0 else 1) + (if statusRe == "" then 0 else 1) +
      (if notStatusRe == "" then 0 else 1)
  {
  }

  /** Before any pipeline text, `sel` reads as exactly `ms`, or not at all. */
  ghost predicate SelectsExactly(sel: string, ms: seq<Matcher>, readable: bool) {
    forall rest :: ReadQuery(sel + rest) == if readable then ReadPipeline(ms, rest) else None
  }

  lemma PartsConcat(a: seq<Matcher>, b: seq<Matcher>)
    ensures Parts(a + b) == Parts(a) + Parts(b)
  {
    hide Part;
  }

  lemma PartsIf(given: bool, m: Matcher, text: string)
    requires given ==> text == Part(m)
    ensures Parts(if given then [m] else []) == if given then [text] else []
  {
    hide Part;
  }

  lemma LabelTexts(v: string)
    ensures Part(Matcher("model", Eq, v)) == "model=\"" + Escape(v) + "\""
    ensures Part(Matcher("status", Eq, v)) == "status=\"" + Escape(v) + "\""
  {
  }

  lemma PatternTexts(v: string)
    requires Plain(v)
    ensures Part(Matcher("status", Re, v)) == "status=~\"" + v + "\""
    ensures Part(Matcher("status", NotRe, v)) == "status!~\"" + v + "\""
  {
    PlainNeedsNoEscape(v);
  }

  lemma JobText()
    ensures Part(JOB) == "job=\"llm-gateway\"" && Parts([JOB]) == [Part(JOB)]
  {
    hide Escape;
    PlainNeedsNoEscape("llm-gateway");
  }

  /** The parts as written: model and status escaped, the two patterns raw. */
  function RequestParts(model: string, status: string, statusRe: string, notStatusRe: string): seq<string> {
    ["job=\"llm-gateway\""] +
    (if model == "" then [] else ["model=\"" + Escape(model) + "\""]) +
    (if status == "" then [] else ["status=\"" + Escape(status) + "\""]) +
    (if statusRe == "" then [] else ["status=~\"" + statusRe + "\""]) +
    (if notStatusRe == "" then [] else ["status!~\"" + notStatusRe + "\""])
  }

  /** `_selector`, on any arguments. With patterns that need no escaping it reads back,
      before any pipeline, as exactly these matchers if and only if the model and status
      hold no newline and no NUL. */
  method RequestSelector(model: string, status: string, statusRe: string, notStatusRe: string)
    returns (sel: string)
    ensures sel == "{" + JoinComma(RequestParts(model, status, statusRe, notStatusRe)) + "}"
    ensures Plain(statusRe) && Plain(notStatusRe) ==>
      SelectsExactly(sel, RequestMatchers(model, status, statusRe, notStatusRe),
                     Quotable(model) && Quotable(status))
  {
    hide Escape;
    hide JoinComma;
    hide SelectsExactly;
    hide Plain;
    var parts := ["job=\"llm-gateway\""];
    if model != "" {
      parts := parts + ["model=\"" + Escape(model) + "\""];
    }
    if status != "" {
      parts := parts + ["status=\"" + Escape(status) + "\""];
    }
    if statusRe != "" {
      parts := parts + ["status=~\"" + statusRe + "\""];
    }
    if notStatusRe != "" {
      parts := parts + ["status!~\"" + notStatusRe + "\""];
    }
    sel := "{" + JoinComma(parts) + "}";
    assert parts == RequestParts(model, status, statusRe, notStatusRe);
    if Plain(statusRe) && Plain(notStatusRe) {
      PlainParts(model, status, statusRe, notStatusRe);
      RequestMatchersRead(model, status, statusRe, notStatusRe);
    }
  }

  lemma PlainParts(model: string, status: string, statusRe: string, notStatusRe: string)
    requires Plain(statusRe) && Plain(notStatusRe)
    ensures RequestParts(model, status, statusRe, notStatusRe)
         == Parts(RequestMatchers(model, status, statusRe, notStatusRe))
  {
    hide Escape;
    hide Part;
    hide Parts;
    hide Plain;
    JobText();
    LabelTexts(model);
    LabelTexts(status);
    PatternTexts(statusRe);
    PatternTexts(notStatusRe);
    var m2, t2 := Matcher("model", Eq, model), "model=\"" + Escape(model) + "\"";
    var m3, t3 := Matcher("status", Eq, status), "status=\"" + Escape(status) + "\"";
    var m4, t4 := Matcher("status", Re, statusRe), "status=~\"" + statusRe + "\"";
    var m5, t5 := Matcher("status", NotRe, notStatusRe), "status!~\"" + notStatusRe + "\"";
    FiveParts(m2, t2, m3, t3, m4, t4, m5, t5, model != "", status != "", statusRe != "", notStatusRe != "");
  }

  lemma FiveParts(m2: Matcher, t2: string, m3: Matcher, t3: string, m4: Matcher, t4: string, m5: Matcher, t5: string,
                  g2: bool, g3: bool, g4: bool, g5: bool)
    requires t2 == Part(m2) && t3 == Part(m3) && t4 == Part(m4) && t5 == Part(m5)
    ensures Parts([JOB] + (if g2 then [m2] else []) + (if g3 then [m3] else []) + (if g4 then [m4] else []) +
                  (if g5 then [m5] else []))
         == [Part(JOB)] + (if g2 then [t2] else []) + (if g3 then [t3] else []) + (if g4 then [t4] else []) +
            (if g5 then [t5] else [])
  {
    hide *;
    var a2, a3 := if g2 then [m2] else [], if g3 then [m3] else [];
    var a4, a5 := if g4 then [m4] else [], if g5 then [m5] else [];
    PartsIf(true, JOB, Part(JOB));
    PartsIf(g2, m2, t2);
    PartsIf(g3, m3, t3);
    PartsIf(g4, m4, t4);
    PartsIf(g5, m5, t5);
    PartsConcat([JOB], a2);
    PartsConcat([JOB] + a2, a3);
    PartsConcat([JOB] + a2 + a3, a4);
    PartsConcat([JOB] + a2 + a3 + a4, a5);
  }

  /** Reading a string takes one character more than its value has, and more still for
      every escape. */
  lemma {:induction false} ReadTakes(s: string)
    requires ReadString(s).Some?
    ensures var (v, rest) := ReadString(s).value;
      |v| + 1 + |rest| <= |s| && (|v| + 1 + |rest| == |s| ==> Plain(v))
  {
    if s[0] == '\\' {
      ReadTakes(s[2..]);
    } else if s[0] != '"' {
      ReadTakes(s[1..]);
    }
  }

  lemma {:induction false} PlainReads(raw: string, rest: string)
    requires Plain(raw)
    ensures ReadString(raw + "\"" + rest) == Some((raw, rest))
  {
    PlainNeedsNoEscape(raw);
    assert Quotable(raw);
    QuotedReadsBack(raw, rest);
  }

  /** A pattern put between quotes as it stands reads back as itself exactly when it
      holds no backslash, quote, newline or NUL. */
  lemma RawReadsBackExactlyWhen(raw: string, rest: string)
    ensures ReadString(raw + "\"" + rest) == Some((raw, rest)) <==> Plain(raw)
  {
    var s := raw + "\"" + rest;
    if Plain(raw) {
      PlainReads(raw, rest);
    } else if ReadString(s).Some? {
      ReadTakes(s);
    }
  }

  lemma RequestMatchersRead(model: string, status: string, statusRe: string, notStatusRe: string)
    requires Plain(statusRe) && Plain(notStatusRe)
    ensures var ms := RequestMatchers(model, status, statusRe, notStatusRe);
      SelectsExactly(Selector(ms), ms, Quotable(model) && Quotable(status))
  {
    var ms := RequestMatchers(model, status, statusRe, notStatusRe);
    RequestQuotable(model, status, statusRe, notStatusRe);
    forall rest
      ensures ReadQuery(Selector(ms) + rest) ==
        if Quotable(model) && Quotable(status) then ReadPipeline(ms, rest) else None
    {
      SelectorReadsBack(ms, rest);
    }
  }

  lemma RequestQuotable(model: string, status: string, statusRe: string, notStatusRe: string)
    requires Plain(statusRe) && Plain(notStatusRe)
    ensures Fine(RequestMatchers(model, status, statusRe, notStatusRe), Quotable(model) && Quotable(status))
  {
    RequestLabels();
    PlainQuotable(statusRe);
    PlainQuotable(notStatusRe);
    PlainQuotable("");
    hide *;
    FiveFine(Matcher("model", Eq, model), Quotable(model), Matcher("status", Eq, status), Quotable(status),
             Matcher("status", Re, statusRe), Matcher("status", NotRe, notStatusRe),
             model != "", status != "", statusRe != "", notStatusRe != "");
    RequestMatchersAre(model, status, statusRe, notStatusRe);
  }

  lemma RequestMatchersAre(model: string, status: string, statusRe: string, notStatusRe: string)
    ensures RequestMatchers(model, status, statusRe, notStatusRe) ==
      [JOB] + (if model != "" then [Matcher("model", Eq, model)] else []) +
      (if status != "" then [Matcher("status", Eq, status)] else []) +
      (if statusRe != "" then [Matcher("status", Re, statusRe)] else []) +
      (if notStatusRe != "" then [Matcher("status", NotRe, notStatusRe)] else [])
  {
  }

  lemma RequestLabels()
    ensures GoodLabel(JOB.name) && GoodLabel("model") && GoodLabel("status") && Quotable(JOB.value)
  {
  }

  lemma PlainQuotable(s: string)
    requires Plain(s)
    ensures Quotable(s)
  {
  }

  lemma FiveFine(m2: Matcher, q2: bool, m3: Matcher, q3: bool, m4: Matcher, m5: Matcher,
                 g2: bool, g3: bool, g4: bool, g5: bool)
    requires GoodLabel(JOB.name) && Quotable(JOB.value)
    requires GoodLabel(m2.name) && GoodLabel(m3.name) && GoodLabel(m4.name) && GoodLabel(m5.name)
    requires (Quotable(m2.value) <==> q2) && (Quotable(m3.value) <==> q3) && (g2 || q2) && (g3 || q3)
    requires Quotable(m4.value) && Quotable(m5.value)
    ensures Fine([JOB] + (if g2 then [m2] else []) + (if g3 then [m3] else []) + (if g4 then [m4] else []) +
                 (if g5 then [m5] else []), q2 && q3)
  {
    hide *;
    var a2, a3 := if g2 then [m2] else [], if g3 then [m3] else [];
    var a4, a5 := if g4 then [m4] else [], if g5 then [m5] else [];
    FineIf(true, JOB, true);
    FineIf(g2, m2, q2);
    FineIf(g3, m3, q3);
    FineIf(g4, m4, true);
    FineIf(g5, m5, true);
    FineConcat([JOB], true, a2, q2);
    FineConcat([JOB] + a2, q2, a3, q3);
    FineConcat([JOB] + a2 + a3, q2 && q3, a4, true);
    FineConcat([JOB] + a2 + a3 + a4, q2 && q3, a5, true);
  }

  lemma FineIf(given: bool, m: Matcher, quotable: bool)
    requires GoodLabel(m.name) && (Quotable(m.value) <==> quotable) && (given || quotable)
    ensures Fine(if given then [m] else [], quotable)
  {
    hide GoodLabel;
    hide Quotable;
    if given {
      assert AllQuotable([m]) <==> Quotable([m][0].value);
    }
  }

  /** Good labels throughout, and values that can all stand between quotes or not. */
  ghost predicate Fine(ms: seq<Matcher>, quotable: bool) {
    (forall i :: 0 <= i < |ms| ==> GoodLabel(ms[i].name)) && (AllQuotable(ms) <==> quotable)
  }

  lemma FineConcat(a: seq<Matcher>, qa: bool, b: seq<Matcher>, qb: bool)
    requires Fine(a, qa) && Fine(b, qb)
    ensures Fine(a + b, qa && qb)
  {
    hide GoodLabel;
    hide Quotable;
    var c := a + b;
    assert forall i :: 0 <= i < |a| ==> c[i] == a[i];
    assert forall i :: 0 <= i < |b| ==> c[|a| + i] == b[i];
  }

  /** The query behind the request-log page: matchers, search text and the `| json`
      stage all read back, exactly when no filter holds a newline or a NUL. */
  method RequestLogQuery(model: string, status: string, contentSearch: string) returns (query: string)
    ensures ReadQuery(query) ==
      if Quotable(model) && Quotable(status) && Quotable(contentSearch)
      then Some(Query(RequestMatchers(model, status, "", ""),
                      if contentSearch == "" then None else Some(contentSearch), " | json"))
      else None
  {
    var sel := RequestSelector(model, status, "", "");
    hide ReadQuery;
    hide RequestMatchers;
    hide Selector;
    var lineFilter := if contentSearch != "" then " |= \"" + Escape(contentSearch) + "\"" else "";
    query := sel + lineFilter + " | json";
    RequestPipeline(sel, lineFilter, RequestMatchers(model, status, "", ""), contentSearch,
                    Quotable(model) && Quotable(status));
  }

  lemma RequestPipeline(sel: string, lineFilter: string, ms: seq<Matcher>, needle: string, readable: bool)
    requires SelectsExactly(sel, ms, readable)
    requires lineFilter == if needle != "" then LineFilter(needle) else ""
    ensures ReadQuery(sel + lineFilter + " | json") ==
      if readable && Quotable(needle)
      then Some(Query(ms, if needle == "" then None else Some(needle), " | json"))
      else None
  {
    assert sel + lineFilter + " | json" == sel + (lineFilter + " | json");
    JsonStage(ms);
    if needle != "" {
      LineFilterReadsBack(ms, needle, " | json");
    } else {
      assert lineFilter + " | json" == " | json";
    }
    hide ReadQuery;
    hide ReadPipeline;
    hide LineFilter;
  }

  lemma JsonStage(ms: seq<Matcher>)
    ensures ReadPipeline(ms, " | json") == Some(Query(ms, None, " | json"))
  {
    assert " | json"[1..] == "| json";
    assert SkipSpaces(" | json") == SkipSpaces("| json") == "| json";
    assert "| json"[1] == ' ' && "|="[1] == '=';
  }
}
