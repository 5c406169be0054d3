/** A LogQL reader: stream selector, optional substring filter, then whatever
    pipeline follows. Double-quoted strings follow Go's rules, as Loki's do. */
module LogQl {
  import opened Bytes

  datatype Op = Eq | Neq | Re | NotRe

  datatype Matcher = Matcher(name: string, op: Op, value: string)

  /** `needle` is the argument of `|=` right after the selector, if there is one. */
  datatype Query = Query(matchers: seq<Matcher>, needle: Option<string>, pipeline: string)

  predicate IdentChar(c: char) {
    'a' <= c <= 'z' || 'A' <= c <= 'Z' || '0' <= c <= '9' || c == '_'
  }

  /** A one-letter escape's meaning in a double-quoted Go string. */
  function Unescape(c: char): Option<char> {
    if c == '\\' || c == '"' then Some(c)
    else if c == 'n' then Some('\n')
    else if c == 'r' then Some('\r')
    else if c == 't' then Some('\t')
    else if c == 'a' then Some('\U{07}')
    else if c == 'b' then Some('\U{08}')
    else if c == 'f' then Some('\U{0C}')
    else if c == 'v' then Some('\U{0B}')
    else None
  }

  /** Characters that may not stand in a query string as they are: Go's scanner ends the
      literal at a newline and reports NUL anywhere. */
  predicate Refused(c: char) {
    c == '\n' || c == '\U{00}'
  }

  /** The rest of a string after its opening quote: its value and what follows the
      closing one. */
  function ReadString(s: string): (r: Option<(string, string)>)
    ensures r.Some? ==> |r.value.1| < |s|
  {
    if s == "" || Refused(s[0]) then None
    else if s[0] == '"' then Some(("", s[1..]))
    else if s[0] == '\\' then
      if |s| < 2 || Unescape(s[1]).None? then None
      else
        match ReadString(s[2..])
        case None => None
        case Some((v, rest)) => Some(([Unescape(s[1]).value] + v, rest))
    else
      match ReadString(s[1..])
      case None => None
      case Some((v, rest)) => Some(([s[0]] + v, rest))
  }

  function ReadIdent(s: string): (r: (string, string))
    ensures |r.0| + |r.1| == |s|
  {
    if s == "" || !IdentChar(s[0]) then ("", s)
    else var (id, rest) := ReadIdent(s[1..]); ([s[0]] + id, rest)
  }

  function ReadOp(s: string): (r: Option<(Op, string)>)
    ensures r.Some? ==> |r.value.1| < |s|
  {
    if "=~" <= s then Some((Re, s[2..]))
    else if "!~" <= s then Some((NotRe, s[2..]))
    else if "!=" <= s then Some((Neq, s[2..]))
    else if "=" <= s then Some((Eq, s[1..]))
    else None
  }

  function SkipSpaces(s: string): (r: string)
    ensures |r| <= |s|
  {
    if s != "" && s[0] == ' ' then SkipSpaces(s[1..]) else s
  }

  function ReadMatcher(s: string): (r: Option<(Matcher, string)>)
    ensures r.Some? ==> |r.value.1| < |s|
  {
    var (name, s1) := ReadIdent(s);
    if name == "" then None
    else match ReadOp(s1)
      case None => None
      case Some((op, s2)) =>
        if s2 == "" || s2[0] != '"' then None
        else match ReadString(s2[1..])
          case None => None
          case Some((value, s3)) => Some((Matcher(name, op, value), s3))
  }

  /** One or more matchers up to the closing brace. */
  function ReadMatchers(s: string): Option<(seq<Matcher>, string)>
    decreases |s|
  {
    match ReadMatcher(s)
    case None => None
    case Some((m, s1)) =>
      if s1 == "" then None
      else if s1[0] == '}' then Some(([m], s1[1..]))
      else if s1[0] != ',' then None
      else match ReadMatchers(SkipSpaces(s1[1..]))
        case None => None
        case Some((ms, rest)) => Some(([m] + ms, rest))
  }

  function ReadPipeline(ms: seq<Matcher>, s: string): Option<Query> {
    var t := SkipSpaces(s);
    if "|=" <= t then
      var u := SkipSpaces(t[2..]);
      if u == "" || u[0] != '"' then None
      else match ReadString(u[1..])
        case None => None
        case Some((needle, rest)) => Some(Query(ms, Some(needle), rest))
    else Some(Query(ms, None, s))
  }

  function ReadQuery(q: string): Option<Query> {
    if q == "" || q[0] != '{' then None
    else match ReadMatchers(q[1..])
      case None => None
      case Some((ms, rest)) => ReadPipeline(ms, rest)
  }
}
