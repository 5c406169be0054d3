/** Turning tmstat tables into samples: internal rows dropped in place, names
    sanitised, one block of samples per value column. */
module ExporterSamples {
  import opened Bytes

  datatype Column = Column(name: string, isKey: bool, isNumeric: bool, isAddress: bool)

  /** A row's text by column, and its numbers as float64 bit patterns. */
  datatype Row = Row(text: map<string, string>, numbers: map<string, uint64>)

  datatype Label = Label(name: string, value: string)

  datatype Sample = Sample(metric: string, labels: seq<Label>, value: uint64, global: bool)

  datatype Table = Table(columns: seq<Column>, rows: seq<Row>, readable: bool)

  /** `tmstat.DecodeAddr`, whose text form of an address is taken as given. */
  type Decoder = string -> Option<string>

  function TextOf(r: Row, c: Column): string {
    if c.name in r.text then r.text[c.name] else ""
  }

  function NumberOf(r: Row, c: Column): uint64 {
    if c.name in r.numbers then r.numbers[c.name] else 0
  }

  // ---------------------------------------------------------------------
  // dropInternal
  // ---------------------------------------------------------------------

  predicate LinkLocal(ip: string) {
    "169.254." <= ip || "fe80:" <= ip
  }

  function HexDigit(n: nat): char
    requires n < 16
  {
    if n < 10 then '0' + n as char else 'a' + (n - 10) as char
  }

  /** One 16-bit group of an IPv6 address as `net.IP.String` writes it. */
  function Hex(n: nat): (h: string)
    ensures h != []
  {
    if n < 16 then [HexDigit(n)] else Hex(n / 16) + [HexDigit(n % 16)]
  }

  lemma HexValue(n: nat)
    requires n < 0x1_0000
    ensures n >= 0x1000 ==>
      Hex(n) == [HexDigit(n / 0x1000), HexDigit(n / 0x100 % 16), HexDigit(n / 16 % 16), HexDigit(n % 16)]
    ensures n < 0x1000 ==> |Hex(n)| <= 3
  {
    assert n / 16 / 16 == n / 0x100 && n / 16 / 16 / 16 == n / 0x1000;
    if n >= 0x1000 {
      assert Hex(n / 0x1000) == [HexDigit(n / 0x1000)];
      assert Hex(n / 0x100) == [HexDigit(n / 0x1000), HexDigit(n / 0x100 % 16)];
      assert Hex(n / 16) == [HexDigit(n / 0x1000), HexDigit(n / 0x100 % 16), HexDigit(n / 16 % 16)];
    } else if n >= 0x100 {
      assert |Hex(n / 0x100)| == 1 && |Hex(n / 16)| == 2;
    }
  }

  lemma HexDigitInjective(m: nat, n: nat)
    requires m < 16 && n < 16
    ensures HexDigit(m) == HexDigit(n) <==> m == n
    ensures HexDigit(n) != '.' && HexDigit(n) != ':'
  {
  }

  lemma {:induction false} HexPlain(n: nat)
    ensures forall i :: 0 <= i < |Hex(n)| ==> Hex(n)[i] != ':' && Hex(n)[i] != '.'
  {
    if n >= 16 {
      HexPlain(n / 16);
      HexDigitInjective(n % 16, 0);
    } else {
      HexDigitInjective(n, 0);
    }
  }

  lemma NotDotted(h: string, rest: string)
    requires forall i :: 0 <= i < |h| ==> h[i] != ':' && h[i] != '.'
    ensures !("169.254." <= h + ":" + rest)
  {
    var dotted, ip := "169.254.", h + ":" + rest;
    assert dotted[3] == '.' && forall i :: 0 <= i < |dotted| ==> dotted[i] != ':';
    assert ip[|h|] == ':';
    assert |h| > 3 ==> ip[3] == h[3];
  }

  lemma FirstGroup(h: string, rest: string)
    requires forall i :: 0 <= i < |h| ==> h[i] != ':'
    ensures "fe80:" <= h + ":" + rest <==> h == "fe80"
  {
    var ip := h + ":" + rest;
    assert "fe80:" == "fe80" + ":" && ip[|h|] == ':';
    assert forall i :: 0 <= i < 4 ==> "fe80:"[i] == "fe80"[i] && "fe80"[i] != ':';
    if h == "fe80" {
      assert ip == "fe80:" + rest;
    }
    if "fe80:" <= ip {
      assert ip[..5] == "fe80:" && ip[4] == ':';
      assert |h| == 4 && h == ip[..4];
    }
  }

  lemma FourDigits(n: nat)
    ensures n == n / 0x1000 * 0x1000 + n / 0x100 % 16 * 0x100 + n / 16 % 16 * 16 + n % 16
  {
    var a, b, c := n / 16, n / 0x100, n / 0x1000;
    assert n == a * 16 + n % 16;
    assert b == a / 16 && a == b * 16 + a % 16;
    assert c == b / 16 && b == c * 16 + b % 16;
  }

  lemma SameDigits(n: nat)
    requires n < 0x1_0000
    ensures n / 0x1000 == 15 && n / 0x100 % 16 == 14 && n / 16 % 16 == 8 && n % 16 == 0 <==> n == 0xfe80
  {
    FourDigits(n);
  }

  lemma HexIs(group: nat)
    requires group < 0x1_0000
    ensures Hex(group) == "fe80" <==> group == 0xfe80
  {
    HexValue(group);
    SameDigits(group);
    hide Hex;
    if group >= 0x1000 {
      HexDigitInjective(group / 0x1000, 15);
      HexDigitInjective(group / 0x100 % 16, 14);
      HexDigitInjective(group / 16 % 16, 8);
      HexDigitInjective(group % 16, 0);
      Spelled(Hex(group), group / 0x1000, group / 0x100 % 16, group / 16 % 16, group % 16);
    }
  }

  lemma Spelled(h: string, a: nat, b: nat, c: nat, d: nat)
    requires a < 16 && b < 16 && c < 16 && d < 16 && h == [HexDigit(a), HexDigit(b), HexDigit(c), HexDigit(d)]
    ensures h == "fe80" <==>
      HexDigit(a) == HexDigit(15) && HexDigit(b) == HexDigit(14) && HexDigit(c) == HexDigit(8) &&
      HexDigit(d) == HexDigit(0)
  {
    assert HexDigit(15) == 'f' && HexDigit(14) == 'e' && HexDigit(8) == '8' && HexDigit(0) == '0';
    hide HexDigit;
    assert h == "fe80" ==> h[0] == 'f' && h[1] == 'e' && h[2] == '8' && h[3] == '0';
  }

  /** `isLinkLocal` on an IPv6 address by its first group. Its comment claims the whole
      of fe80::/10, the groups fe80 to febf; it takes the first of these only. */
  lemma LinkLocalExactlyWhen(group: nat, rest: string)
    requires group < 0x1_0000
    ensures LinkLocal(Hex(group) + ":" + rest) <==> group == 0xfe80
  {
    var h := Hex(group);
    HexPlain(group);
    HexIs(group);
    hide Hex;
    NotDotted(h, rest);
    FirstGroup(h, rest);
  }

  /** An address of fe80::/10 that is kept. */
  lemma KeptLinkLocal()
    ensures Hex(0xfe90) + ":" + ":1" == "fe90::1" && !LinkLocal("fe90::1")
  {
    HexValue(0xfe90);
    LinkLocalExactlyWhen(0xfe90, ":1");
  }

  /** A key that starts with an underscore, or an address that is link-local. */
  predicate InternalKey(r: Row, c: Column, decode: Decoder) {
    var v := TextOf(r, c);
    "_" <= v || (c.isAddress && decode(v).Some? && LinkLocal(decode(v).value))
  }

  predicate Internal(r: Row, keyCols: seq<Column>, decode: Decoder) {
    exists i :: 0 <= i < |keyCols| && InternalKey(r, keyCols[i], decode)
  }

  /** The rows that are not internal, in order. */
  function Kept(rows: seq<Row>, keyCols: seq<Column>, decode: Decoder): (r: seq<Row>)
    ensures |r| <= |rows|
  {
    if rows == [] then []
    else
      var init, last := Kept(rows[..|rows| - 1], keyCols, decode), rows[|rows| - 1];
      if Internal(last, keyCols, decode) then init else init + [last]
  }

  method IsInternal(r: Row, keyCols: seq<Column>, decode: Decoder) returns (internal: bool)
    ensures internal == Internal(r, keyCols, decode)
  {
    for i := 0 to |keyCols|
      invariant forall k :: 0 <= k < i ==> !InternalKey(r, keyCols[k], decode)
    {
      var v := TextOf(r, keyCols[i]);
      if "_" <= v {
        assert InternalKey(r, keyCols[i], decode);
        return true;
      }
      if keyCols[i].isAddress {
        var ip := decode(v);
        if ip.Some? && LinkLocal(ip.value) {
          assert InternalKey(r, keyCols[i], decode);
          return true;
        }
      }
    }
    internal := false;
  }

  lemma {:induction false} KeptStep(rows: seq<Row>, i: nat, keyCols: seq<Column>, decode: Decoder)
    requires i < |rows|
    ensures Kept(rows[..i + 1], keyCols, decode)
         == Kept(rows[..i], keyCols, decode) + if Internal(rows[i], keyCols, decode) then [] else [rows[i]]
  {
    assert rows[..i + 1][..i] == rows[..i];
  }

  /** Compacts the rows within their own array while still reading it: the first `n`
      slots are exactly the kept rows in order, the slots after them as they were. */
  method DropInternal(rows: array<Row>, keyCols: seq<Column>, decode: Decoder) returns (n: nat)
    modifies rows
    ensures n <= rows.Length
    ensures rows[..n] == Kept(old(rows[..]), keyCols, decode)
    ensures rows[n..] == old(rows[n..])
  {
    assert Kept([], keyCols, decode) == [];
    hide Kept;
    hide Internal;
    n := 0;
    ghost var all := rows[..];
    for i := 0 to rows.Length
      invariant n <= i
      invariant rows[..n] == Kept(all[..i], keyCols, decode)
      invariant forall k :: n <= k < rows.Length ==> rows[k] == all[k]
    {
      KeptStep(all, i, keyCols, decode);
      var internal := IsInternal(rows[i], keyCols, decode);
      if !internal {
        rows[n] := rows[i];
        n := n + 1;
      }
    }
    assert all[..rows.Length] == all;
  }

  /** Nothing internal is kept, and nothing else is lost. */
  lemma {:induction false} KeptExactly(rows: seq<Row>, r: Row, keyCols: seq<Column>, decode: Decoder)
    ensures Internal(r, keyCols, decode) ==> r !in Kept(rows, keyCols, decode)
    ensures !Internal(r, keyCols, decode) ==> multiset(Kept(rows, keyCols, decode))[r] == multiset(rows)[r]
  {
    if rows != [] {
      KeptExactly(rows[..|rows| - 1], r, keyCols, decode);
      assert rows == rows[..|rows| - 1] + [rows[|rows| - 1]];
    }
  }

  /** What makes a row internal, over its own texts: some key column whose text starts with
      an underscore, or whose address is link-local. */
  lemma InternalExactlyWhen(r: Row, keyCols: seq<Column>, decode: Decoder)
    ensures Internal(r, keyCols, decode) <==>
      exists i :: 0 <= i < |keyCols| &&
        var text := if keyCols[i].name in r.text then r.text[keyCols[i].name] else "";
        (text != "" && text[0] == '_') ||
        (keyCols[i].isAddress && decode(text).Some? &&
         ("169.254." <= decode(text).value || "fe80:" <= decode(text).value))
  {
    forall i | 0 <= i < |keyCols|
      ensures InternalKey(r, keyCols[i], decode) <==>
        var text := if keyCols[i].name in r.text then r.text[keyCols[i].name] else "";
        (text != "" && text[0] == '_') ||
        (keyCols[i].isAddress && decode(text).Some? &&
         ("169.254." <= decode(text).value || "fe80:" <= decode(text).value))
    {
    }
    hide InternalKey;
  }

  /** The filter, row by row and in order. */
  lemma {:induction false} KeptIs(a: seq<Row>, b: seq<Row>, r: Row, keyCols: seq<Column>, decode: Decoder)
    ensures Kept([], keyCols, decode) == []
    ensures Kept([r], keyCols, decode) == (if Internal(r, keyCols, decode) then [] else [r])
    ensures Kept(a + b, keyCols, decode) == Kept(a, keyCols, decode) + Kept(b, keyCols, decode)
    decreases |b|
  {
    hide Internal;
    assert [r][..0] == [];
    if b == [] {
      assert a + b == a && Kept(a, keyCols, decode) + Kept(b, keyCols, decode) == Kept(a, keyCols, decode);
    } else {
      KeptIs(a, b[..|b| - 1], r, keyCols, decode);
      assert (a + b)[..|a + b| - 1] == a + b[..|b| - 1];
    }
  }

  // ---------------------------------------------------------------------
  // Names
  // ---------------------------------------------------------------------

  predicate LetterOrPunct(c: char) {
    'a' <= c <= 'z' || 'A' <= c <= 'Z' || c == '_' || c == ':'
  }

  predicate NameChar(c: char) {
    LetterOrPunct(c) || '0' <= c <= '9'
  }

  /** What one byte of a name becomes, at the front or not. */
  function SanitizeChar(c: char, first: bool): string {
    if LetterOrPunct(c) then [c]
    else if '0' <= c <= '9' then (if first then ['_', c] else [c])
    else "_"
  }

  function Sanitize(s: string): string {
    if s == "" then "" else Sanitize(s[..|s| - 1]) + SanitizeChar(s[|s| - 1], |s| == 1)
  }

  method SanitizeName(s: string) returns (b: string)
    ensures b == Sanitize(s)
    ensures ValidName(b) || s == ""
  {
    b := "";
    for i := 0 to |s|
      invariant b == Sanitize(s[..i])
    {
      assert s[..i + 1][..i] == s[..i];
      var c := s[i];
      if LetterOrPunct(c) {
        b := b + [c];
      } else if '0' <= c <= '9' {
        if i == 0 {
          b := b + ['_'];
        }
        b := b + [c];
        assert i == 0 ==> "" + ['_'] + [c] == ['_', c];
      } else {
        b := b + ['_'];
      }
    }
    assert s[..|s|] == s;
    SanitizeValid(s);
  }

  /** A valid Prometheus name: nonempty, legal characters, no leading digit. */
  predicate ValidName(s: string) {
    s != "" && LetterOrPunct(s[0]) && forall i :: 0 <= i < |s| ==> NameChar(s[i])
  }

  lemma {:induction false} SanitizeValid(s: string)
    ensures s != "" ==> ValidName(Sanitize(s))
    ensures s == "" ==> Sanitize(s) == ""
  {
    if |s| > 1 {
      SanitizeValid(s[..|s| - 1]);
    } else if |s| == 1 {
      assert Sanitize(s[..0]) == "";
    }
  }

  /** Valid names are left alone; hence sanitising twice is sanitising once. */
  lemma {:induction false} SanitizeKeepsValid(s: string)
    requires ValidName(s)
    ensures Sanitize(s) == s
  {
    if |s| > 1 {
      SanitizeKeepsValid(s[..|s| - 1]);
      assert s == s[..|s| - 1] + [s[|s| - 1]];
    } else {
      assert Sanitize(s[..0]) == "" && s == [s[0]];
    }
  }

  /** Character by character: what is legal stays, what is not becomes an underscore, and a
      digit in front gets one before it. */
  lemma SanitizeIs(s: string, c: char)
    ensures Sanitize("") == ""
    ensures Sanitize([c]) ==
      if '0' <= c <= '9' then ['_', c]
      else if 'a' <= c <= 'z' || 'A' <= c <= 'Z' || c == '_' || c == ':' then [c] else "_"
    ensures s != "" ==>
      Sanitize(s + [c]) == Sanitize(s) +
        if '0' <= c <= '9' || 'a' <= c <= 'z' || 'A' <= c <= 'Z' || c == '_' || c == ':' then [c] else "_"
  {
    assert [c][..0] == "" && "" + SanitizeChar(c, true) == SanitizeChar(c, true);
    assert (s + [c])[..|s|] == s;
  }

  /** Different columns can end up with one metric name. */
  lemma SanitizeCollides()
    ensures Sanitize("a.b") == Sanitize("a_b")
  {
    assert "a.b"[..2] == "a." && "a_b"[..2] == "a_" && "a."[..1] == "a" && "a_"[..1] == "a" && "a"[..0] == "";
  }

  /** `strings.TrimSuffix(name, "_stat")`. */
  function TrimStat(name: string): string {
    if |name| >= 5 && name[|name| - 5..] == "_stat" then name[..|name| - 5] else name
  }

  function Prefix(table: string): string {
    "f5tmm_" + Sanitize(TrimStat(table)) + "_"
  }

  function Metric(table: string, c: Column): string {
    Prefix(table) + Sanitize(c.name)
  }

  /** `f5tmm_`, the table without its `_stat`, the column. */
  lemma MetricIs(table: string, c: Column)
    ensures Metric(table + "_stat", c) == "f5tmm_" + Sanitize(table) + "_" + Sanitize(c.name)
    ensures !(|table| >= 5 && table[|table| - 5..] == "_stat") ==>
      Metric(table, c) == "f5tmm_" + Sanitize(table) + "_" + Sanitize(c.name)
  {
    hide Sanitize;
    assert (table + "_stat")[|table|..] == "_stat" && (table + "_stat")[..|table|] == table;
  }

  // ---------------------------------------------------------------------
  // collectSegment
  // ---------------------------------------------------------------------

  function KeyCols(cs: seq<Column>): seq<Column> {
    if cs == [] then []
    else
      var init, last := KeyCols(cs[..|cs| - 1]), cs[|cs| - 1];
      if last.isKey then init + [last] else init
  }

  function ValCols(cs: seq<Column>): seq<Column> {
    if cs == [] then []
    else
      var init, last := ValCols(cs[..|cs| - 1]), cs[|cs| - 1];
      if !last.isKey && last.isNumeric then init + [last] else init
  }

  function LabelOf(r: Row, c: Column, decode: Decoder): Label {
    var v := TextOf(r, c);
    Label(Sanitize(c.name), if c.isAddress && decode(v).Some? then decode(v).value else v)
  }

  function LabelsOf(r: Row, keyCols: seq<Column>, decode: Decoder): seq<Label> {
    seq(|keyCols|, i requires 0 <= i < |keyCols| => LabelOf(r, keyCols[i], decode))
  }

  /** One value column's samples, one per kept row. */
  function Block(metric: string, c: Column, rows: seq<Row>, keyCols: seq<Column>, decode: Decoder): (b: seq<Sample>)
    ensures |b| == |rows| && forall i :: 0 <= i < |b| ==> b[i].metric == metric
  {
    seq(|rows|, i requires 0 <= i < |rows| =>
          Sample(metric, LabelsOf(rows[i], keyCols, decode), NumberOf(rows[i], c), false))
  }

  function Blocks(table: string, cs: seq<Column>, rows: seq<Row>, keyCols: seq<Column>, decode: Decoder): seq<Sample> {
    if cs == [] then []
    else
      var last := cs[|cs| - 1];
      Blocks(table, cs[..|cs| - 1], rows, keyCols, decode) + Block(Metric(table, last), last, rows, keyCols, decode)
  }

  function TableSamples(table: string, t: Table, decode: Decoder): seq<Sample> {
    if !t.readable then []
    else
      var keyCols := KeyCols(t.columns);
      Blocks(table, ValCols(t.columns), Kept(t.rows, keyCols, decode), keyCols, decode)
  }

  /** Tables in the configured order; one the segment lacks is skipped. */
  function SegmentSamples(names: seq<string>, segment: map<string, Table>, decode: Decoder): seq<Sample> {
    if names == [] then []
    else
      var init, last := SegmentSamples(names[..|names| - 1], segment, decode), names[|names| - 1];
      if last in segment then init + TableSamples(last, segment[last], decode) else init
  }

  /** Key columns give labels, other numeric ones values; in order, each once. */
  lemma {:induction false} ColumnsAre(a: seq<Column>, b: seq<Column>, c: Column)
    ensures KeyCols([]) == [] && KeyCols([c]) == (if c.isKey then [c] else [])
    ensures ValCols([]) == [] && ValCols([c]) == (if !c.isKey && c.isNumeric then [c] else [])
    ensures KeyCols(a + b) == KeyCols(a) + KeyCols(b) && ValCols(a + b) == ValCols(a) + ValCols(b)
    decreases |b|
  {
    assert [c][..0] == [];
    if b == [] {
      assert a + b == a && KeyCols(a) + KeyCols(b) == KeyCols(a) && ValCols(a) + ValCols(b) == ValCols(a);
    } else {
      ColumnsAre(a, b[..|b| - 1], c);
      assert (a + b)[..|a + b| - 1] == a + b[..|b| - 1];
    }
  }

  /** One exported sample: the metric, the row's number in that column or 0, and for each
      key column its name made legal and the row's text, decoded if it is an address. */
  predicate IsSample(x: Sample, metric: string, c: Column, r: Row, keyCols: seq<Column>, decode: Decoder) {
    x.metric == metric && !x.global && (x.value == if c.name in r.numbers then r.numbers[c.name] else 0) &&
    |x.labels| == |keyCols| &&
    forall k :: 0 <= k < |keyCols| ==>
      var text := if keyCols[k].name in r.text then r.text[keyCols[k].name] else "";
      x.labels[k].name == Sanitize(keyCols[k].name) &&
      x.labels[k].value == if keyCols[k].isAddress && decode(text).Some? then decode(text).value else text
  }

  lemma BlockIs(metric: string, c: Column, rows: seq<Row>, keyCols: seq<Column>, decode: Decoder)
    ensures var b := Block(metric, c, rows, keyCols, decode);
      |b| == |rows| && forall i :: 0 <= i < |rows| ==> IsSample(b[i], metric, c, rows[i], keyCols, decode)
  {
    hide Sanitize;
  }

  /** A block for each value column, in order. */
  lemma {:induction false} BlocksAre(table: string, a: seq<Column>, b: seq<Column>, c: Column, rows: seq<Row>,
                                     keyCols: seq<Column>, decode: Decoder)
    ensures Blocks(table, [], rows, keyCols, decode) == []
    ensures Blocks(table, [c], rows, keyCols, decode) == Block(Metric(table, c), c, rows, keyCols, decode)
    ensures Blocks(table, a + b, rows, keyCols, decode) ==
      Blocks(table, a, rows, keyCols, decode) + Blocks(table, b, rows, keyCols, decode)
    decreases |b|
  {
    OneBlock(table, c, rows, keyCols, decode);
    if b == [] {
      assert a + b == a;
      assert Blocks(table, a, rows, keyCols, decode) + [] == Blocks(table, a, rows, keyCols, decode);
    } else {
      var init, last := b[..|b| - 1], b[|b| - 1];
      assert b == init + [last] && a + b == a + init + [last];
      hide *;
      BlocksAre(table, a, init, c, rows, keyCols, decode);
      OneMoreBlock(table, init, last, rows, keyCols, decode);
      OneMoreBlock(table, a + init, last, rows, keyCols, decode);
      Regroup(Blocks(table, a, rows, keyCols, decode), Blocks(table, init, rows, keyCols, decode),
              Block(Metric(table, last), last, rows, keyCols, decode));
    }
  }

  lemma OneMoreBlock(table: string, cs: seq<Column>, c: Column, rows: seq<Row>, keyCols: seq<Column>, decode: Decoder)
    ensures Blocks(table, cs + [c], rows, keyCols, decode) ==
      Blocks(table, cs, rows, keyCols, decode) + Block(Metric(table, c), c, rows, keyCols, decode)
  {
    hide Block;
    hide Metric;
    assert (cs + [c])[..|cs|] == cs;
  }

  lemma Regroup(a: seq<Sample>, b: seq<Sample>, c: seq<Sample>)
    ensures a + (b + c) == a + b + c
  {
  }

  lemma OneBlock(table: string, c: Column, rows: seq<Row>, keyCols: seq<Column>, decode: Decoder)
    ensures Blocks(table, [c], rows, keyCols, decode) == Block(Metric(table, c), c, rows, keyCols, decode)
  {
    hide Block;
    hide Metric;
    assert [c][..0] == [];
    var b := Block(Metric(table, c), c, rows, keyCols, decode);
    assert [] + b == b;
  }

  /** The configured tables in order; of each that is there and readable, the blocks of its
      value columns over the rows kept. */
  lemma {:induction false} SegmentSamplesAre(a: seq<string>, b: seq<string>, n: string, segment: map<string, Table>,
                                             decode: Decoder)
    ensures SegmentSamples([], segment, decode) == []
    ensures SegmentSamples([n], segment, decode) ==
      if n in segment && segment[n].readable then
        var keyCols := KeyCols(segment[n].columns);
        Blocks(n, ValCols(segment[n].columns), Kept(segment[n].rows, keyCols, decode), keyCols, decode)
      else []
    ensures SegmentSamples(a + b, segment, decode) ==
      SegmentSamples(a, segment, decode) + SegmentSamples(b, segment, decode)
    decreases |b|
  {
    OneTable(n, segment, decode);
    hide Blocks;
    hide KeyCols;
    hide ValCols;
    hide Kept;
    hide TableSamples;
    if b == [] {
      assert a + b == a;
      assert SegmentSamples(a, segment, decode) + [] == SegmentSamples(a, segment, decode);
    } else {
      SegmentSamplesAre(a, b[..|b| - 1], n, segment, decode);
      assert (a + b)[..|a + b| - 1] == a + b[..|b| - 1];
    }
  }

  lemma OneTable(n: string, segment: map<string, Table>, decode: Decoder)
    ensures SegmentSamples([n], segment, decode) ==
      if n in segment && segment[n].readable then
        var keyCols := KeyCols(segment[n].columns);
        Blocks(n, ValCols(segment[n].columns), Kept(segment[n].rows, keyCols, decode), keyCols, decode)
      else []
  {
    hide Blocks;
    hide KeyCols;
    hide ValCols;
    hide Kept;
    assert [n][..0] == [];
    if n in segment {
      assert [] + TableSamples(n, segment[n], decode) == TableSamples(n, segment[n], decode);
    }
  }

  method CollectColumn(metric: string, c: Column, rows: seq<Row>, keyCols: seq<Column>, decode: Decoder)
    returns (out: seq<Sample>)
    ensures out == Block(metric, c, rows, keyCols, decode)
    ensures |out| == |rows| && forall i :: 0 <= i < |rows| ==> IsSample(out[i], metric, c, rows[i], keyCols, decode)
  {
    BlockIs(metric, c, rows, keyCols, decode);
    hide IsSample;
    out := [];
    for j := 0 to |rows|
      invariant out == Block(metric, c, rows[..j], keyCols, decode)
    {
      var lbls: seq<Label> := [];
      for k := 0 to |keyCols|
        invariant lbls == LabelsOf(rows[j], keyCols, decode)[..k]
      {
        var v := TextOf(rows[j], keyCols[k]);
        if keyCols[k].isAddress {
          var ip := decode(v);
          if ip.Some? {
            v := ip.value;
          }
        }
        lbls := lbls + [Label(Sanitize(keyCols[k].name), v)];
      }
      var s := Sample(metric, lbls, NumberOf(rows[j], c), false);
      assert lbls == LabelsOf(rows[j], keyCols, decode);
      assert Block(metric, c, rows[..j + 1], keyCols, decode) == Block(metric, c, rows[..j], keyCols, decode) + [s];
      out := out + [s];
    }
    assert rows[..|rows|] == rows;
  }

  lemma {:induction false} BlocksStep(table: string, cs: seq<Column>, i: nat, rows: seq<Row>, keyCols: seq<Column>,
                                      decode: Decoder)
    requires i < |cs|
    ensures Blocks(table, cs[..i + 1], rows, keyCols, decode)
         == Blocks(table, cs[..i], rows, keyCols, decode) + Block(Metric(table, cs[i]), cs[i], rows, keyCols, decode)
  {
    hide Block;
    hide Metric;
    assert cs[..i + 1][..i] == cs[..i];
  }

  method CollectTable(table: string, t: Table, decode: Decoder) returns (out: seq<Sample>)
    requires t.readable
    ensures out == TableSamples(table, t, decode)
  {
    var keyCols, valCols := KeyCols(t.columns), ValCols(t.columns);
    var rows := new Row[|t.rows|](i requires 0 <= i < |t.rows| => t.rows[i]);
    assert rows[..] == t.rows;
    var n := DropInternal(rows, keyCols, decode);
    var kept := rows[..n];
    out := [];
    assert Blocks(table, valCols[..0], kept, keyCols, decode) == [];
    hide Kept;
    hide Blocks;
    hide Block;
    hide Metric;
    hide KeyCols;
    hide ValCols;
    for i := 0 to |valCols|
      invariant out == Blocks(table, valCols[..i], kept, keyCols, decode)
    {
      BlocksStep(table, valCols, i, kept, keyCols, decode);
      var block := CollectColumn(Metric(table, valCols[i]), valCols[i], kept, keyCols, decode);
      out := out + block;
    }
    assert valCols[..|valCols|] == valCols;
  }

  /** `collectSegment` on a parsed segment, then the token samples it is given. */
  method CollectSegment(names: seq<string>, segment: map<string, Table>, tokens: seq<Sample>, decode: Decoder)
    returns (out: seq<Sample>)
    ensures out == SegmentSamples(names, segment, decode) + tokens
  {
    out := [];
    assert SegmentSamples(names[..0], segment, decode) == [];
    hide Kept;
    hide Blocks;
    hide KeyCols;
    hide ValCols;
    for i := 0 to |names|
      invariant out == SegmentSamples(names[..i], segment, decode)
    {
      assert names[..i + 1][..i] == names[..i];
      if names[i] in segment {
        var t := segment[names[i]];
        if !t.readable {
          continue;
        }
        var more := CollectTable(names[i], t, decode);
        out := out + more;
      }
    }
    assert names[..|names|] == names;
    out := out + tokens;
  }
}
