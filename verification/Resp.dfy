/** The RESP2 wire format (Redis serialization protocol specification) and the
    client's recursive reply parser as a function of the bytes it is fed. */
module Resp {
  import opened Bytes
  import opened Decimal

  const CR: byte := 0x0d
  const LF: byte := 0x0a
  const CRLF: bytes := [CR, LF]
  const T_SIMPLE: byte := 0x2b
  const T_ERROR: byte := 0x2d
  const T_INTEGER: byte := 0x3a
  const T_BULK: byte := 0x24
  const T_ARRAY: byte := 0x2a

  /** What a reply becomes in Go: string, int64, []interface{} or nil. */
  datatype Reply = Str(s: bytes) | Int(i: int64) | Arr(items: seq<Reply>) | Nil

  datatype Error = Eof | ShortReply | ServerError(msg: bytes) | BadNumber | UnknownType | WriteFailed

  /** An outcome together with the bytes still unread afterwards. */
  datatype Parsed<+T> = Ok(value: T, rest: bytes) | Err(error: Error, rest: bytes)

  // ---------------------------------------------------------------------
  // readReply
  // ---------------------------------------------------------------------

  /** Number of bytes up to and including the first line feed; 0 if there is none. */
  function LineLength(b: bytes): (n: nat)
    ensures n <= |b|
    ensures n == 0 <==> LF !in b
    ensures n > 0 ==> b[n - 1] == LF && LF !in b[..n - 1]
  {
    if b == [] then 0
    else if b[0] == LF then 1
    else
      var n := LineLength(b[1..]);
      assert b == [b[0]] + b[1..];
      assert n > 0 ==> b[..n] == [b[0]] + b[1..][..n - 1];
      if n == 0 then 0 else n + 1
  }

  /** One value from the front of `b`. A success takes at least three bytes. */
  function Parse(b: bytes): (r: Parsed<Reply>)
    ensures r.Ok? ==> |r.rest| + 3 <= |b|
    ensures |r.rest| <= |b|
    decreases |b|, 0
  {
    var n := LineLength(b);
    if n == 0 then Err(Eof, [])
    else if n < 3 then Err(ShortReply, b[n..])
    else ParseTyped(b[0], b[1..n - 2], b[n..])
  }

  /** The switch on the type byte; `body` is the line without it and its last two bytes. */
  function ParseTyped(kind: byte, body: bytes, rest: bytes): (r: Parsed<Reply>)
    ensures |r.rest| <= |rest|
    decreases |rest|, 2
  {
    if kind == T_SIMPLE then Ok(Str(body), rest)
    else if kind == T_ERROR then Err(ServerError(body), rest)
    else if kind == T_INTEGER then
      match ParseInt(body)
      case None => Err(BadNumber, rest)
      case Some(i) => Ok(Int(i), rest)
    else if kind == T_BULK then
      match ParseInt(body)
      case None => Err(BadNumber, rest)
      case Some(len) =>
        if len < 0 then Ok(Nil, rest)
        else if len + 2 > |rest| then Err(Eof, [])
        else Ok(Str(rest[..len]), rest[len + 2..])
    else if kind == T_ARRAY then
      match ParseInt(body)
      case None => Err(BadNumber, rest)
      case Some(len) =>
        if len < 0 then Ok(Nil, rest)
        else
          match ParseItems(rest, len)
          case Err(e, left) => Err(e, left)
          case Ok(items, left) => Ok(Arr(items), left)
    else Err(UnknownType, rest)
  }

  /** `n` values in a row; the first error ends it. */
  function ParseItems(b: bytes, n: nat): (r: Parsed<seq<Reply>>)
    ensures |r.rest| <= |b|
    ensures r.Ok? ==> |r.value| == n
    decreases |b|, 1
  {
    if n == 0 then Ok([], b)
    else match Parse(b)
      case Err(e, left) => Err(e, left)
      case Ok(v, left) =>
        match ParseItems(left, n - 1)
        case Err(e, left') => Err(e, left')
        case Ok(vs, left') => Ok([v] + vs, left')
  }

  // ---------------------------------------------------------------------
  // A connection that ends together with its last bytes
  // ---------------------------------------------------------------------

  /** bufio's buffer size: a read of at least this many bytes goes to the connection. */
  const DIRECT: nat := 4096

  /** The bytes as good as delivered. A full read that brings the connection's error
      with its bytes is reported as failed, just as if the last byte had not come. */
  function Heard(b: bytes, late: bool): bytes {
    if late && b != [] then b[..|b| - 1] else b
  }

  /** Reading one value takes the last byte in by filling a buffer of at least `DIRECT`. */
  predicate EndsLong(b: bytes)
    decreases |b|, 0
  {
    var n := LineLength(b);
    n >= 3 && EndsLongTyped(b[0], b[1..n - 2], b[n..])
  }

  predicate EndsLongTyped(kind: byte, body: bytes, rest: bytes)
    decreases |rest|, 2
  {
    var len := ParseInt(body);
    len.Some? && len.value >= 0 &&
    if kind == T_BULK then |rest| == len.value + 2 >= DIRECT
    else kind == T_ARRAY && EndsLongItems(rest, len.value)
  }

  predicate EndsLongItems(b: bytes, n: nat)
    decreases |b|, 1
  {
    n > 0 && (EndsLong(b) || (Parse(b).Ok? && EndsLongItems(Parse(b).rest, n - 1)))
  }

  lemma LineStep(b: bytes)
    requires b != []
    ensures LineLength(b) ==
      if b[0] == LF then 1 else if LineLength(b[1..]) == 0 then 0 else LineLength(b[1..]) + 1
  {
  }

  lemma DropEnds(b: bytes)
    requires |b| > 1
    ensures b[..|b| - 1][1..] == b[1..][..|b[1..]| - 1] && b[..|b| - 1][0] == b[0] && b[..|b| - 1] != []
  {
  }

  lemma {:induction false} LineOfPrefix(b: bytes)
    requires 0 < LineLength(b) < |b|
    ensures LineLength(b[..|b| - 1]) == LineLength(b)
  {
    hide LineLength;
    LineStep(b);
    DropEnds(b);
    LineStep(b[..|b| - 1]);
    if b[0] != LF {
      LineOfPrefix(b[1..]);
    }
  }

  /** A value that leaves something unread is read the same from one byte less. */
  lemma {:induction false} ParseShorter(b: bytes)
    requires Parse(b).Ok? && Parse(b).rest != []
    ensures Parse(b[..|b| - 1]) == Ok(Parse(b).value, Heard(Parse(b).rest, true))
    decreases |b|, 0
  {
    OkLine(b);
    hide *;
    var n := LineLength(b);
    LineOfPrefix(b);
    ParseLine(b, n);
    TypedShorter(b[0], b[1..n - 2], b[n..]);
    ParsePrefix(b, n);
  }

  lemma OkLine(b: bytes)
    requires Parse(b).Ok? && Parse(b).rest != []
    ensures 3 <= LineLength(b) < |b|
  {
    hide LineLength;
    hide ParseTyped;
  }

  lemma ParsePrefix(b: bytes, n: nat)
    requires 3 <= n < |b| && LineLength(b[..|b| - 1]) == n
    ensures Parse(b[..|b| - 1]) == ParseTyped(b[0], b[1..n - 2], b[n..][..|b| - n - 1])
  {
    var c := b[..|b| - 1];
    ParseLine(c, n);
    hide *;
    assert c[1..n - 2] == b[1..n - 2] && c[n..] == b[n..][..|b| - n - 1];
  }

  lemma ParseLine(b: bytes, n: nat)
    requires LineLength(b) == n >= 3
    ensures Parse(b) == ParseTyped(b[0], b[1..n - 2], b[n..])
  {
  }

  lemma {:induction false} TypedShorter(kind: byte, body: bytes, rest: bytes)
    requires ParseTyped(kind, body, rest).Ok? && ParseTyped(kind, body, rest).rest != []
    ensures ParseTyped(kind, body, rest[..|rest| - 1])
         == Ok(ParseTyped(kind, body, rest).value, Heard(ParseTyped(kind, body, rest).rest, true))
    decreases |rest|, 2
  {
    hide ParseInt;
    hide ParseItems;
    if kind == T_ARRAY {
      var len := ParseInt(body).value;
      if len >= 0 {
        ItemsShorter(rest, len);
      }
    } else if kind == T_BULK {
      var len := ParseInt(body).value;
      if len >= 0 {
        var short := rest[..|rest| - 1];
        assert short[..len] == rest[..len] && short[len + 2..] == rest[len + 2..][..|rest| - len - 3];
      }
    }
  }

  lemma ItemsCons(b: bytes, n: nat, v: Reply, left: bytes)
    requires n > 0 && Parse(b) == Ok(v, left)
    ensures ParseItems(b, n) ==
      match ParseItems(left, n - 1)
      case Err(e, left') => Err(e, left')
      case Ok(vs, left') => Ok([v] + vs, left')
  {
    hide Parse;
  }

  lemma {:induction false} ItemsShorter(b: bytes, n: nat)
    requires ParseItems(b, n).Ok? && ParseItems(b, n).rest != []
    ensures ParseItems(b[..|b| - 1], n) == Ok(ParseItems(b, n).value, Heard(ParseItems(b, n).rest, true))
    decreases |b|, 1
  {
    hide Parse;
    if n > 0 {
      var v, left := Parse(b).value, Parse(b).rest;
      ItemsCons(b, n, v, left);
      ItemsShorter(left, n - 1);
      ParseShorter(b);
      hide ParseItems;
      ItemsCons(b[..|b| - 1], n, v, left[..|left| - 1]);
    }
  }

  /** Where it can make a difference, the difference is an EOF with nothing left. */
  lemma {:induction false} EndsLongFails(b: bytes)
    requires EndsLong(b)
    ensures |b| > 0 && Parse(b[..|b| - 1]) == Err(Eof, [])
    decreases |b|, 0
  {
    hide *;
    var n := LongLine(b);
    LongRestNonempty(b[0], b[1..n - 2], b[n..]);
    LineOfPrefix(b);
    TypedLongFails(b[0], b[1..n - 2], b[n..]);
    ParsePrefix(b, n);
  }

  lemma LongLine(b: bytes) returns (n: nat)
    requires EndsLong(b)
    ensures n == LineLength(b) && 3 <= n <= |b| && EndsLongTyped(b[0], b[1..n - 2], b[n..])
  {
    hide LineLength;
    hide EndsLongTyped;
    n := LineLength(b);
  }

  lemma LongRestNonempty(kind: byte, body: bytes, rest: bytes)
    requires EndsLongTyped(kind, body, rest)
    ensures |rest| > 0
  {
    hide ParseInt;
    if kind == T_ARRAY {
      LongNonempty(rest, ParseInt(body).value);
    }
  }

  lemma {:induction false} TypedLongFails(kind: byte, body: bytes, rest: bytes)
    requires rest != [] && EndsLongTyped(kind, body, rest)
    ensures ParseTyped(kind, body, rest[..|rest| - 1]) == Err(Eof, [])
    decreases |rest|, 2
  {
    hide ParseInt;
    hide ParseItems;
    hide EndsLongItems;
    if kind == T_ARRAY {
      ItemsLongFail(rest, ParseInt(body).value);
    }
  }

  lemma {:induction false} ItemsLongFail(b: bytes, n: nat)
    requires b != [] && EndsLongItems(b, n)
    ensures ParseItems(b[..|b| - 1], n) == Err(Eof, [])
    decreases |b|, 1
  {
    hide Parse;
    if EndsLong(b) {
      EndsLongFails(b);
    } else {
      LongNonempty(Parse(b).rest, n - 1);
      ParseShorter(b);
      ItemsLongFail(Parse(b).rest, n - 1);
    }
  }

  lemma LongNonempty(b: bytes, n: nat)
    requires EndsLongItems(b, n)
    ensures b != []
  {
    assert b == [] ==> LineLength(b) == 0;
    assert LineLength(b) == 0 ==> !EndsLong(b) && Parse(b).Err?;
  }

  // ---------------------------------------------------------------------
  // What a server may send
  // ---------------------------------------------------------------------

  datatype Wire =
    | SimpleString(s: bytes)
    | SimpleError(s: bytes)
    | Integer(i: int64)
    | Bulk(s: bytes)
    | NullBulk
    | NullArray
    | Array(items: seq<Wire>)

  /** The protocol's own limits: simple strings hold no line feed, lengths are
      64-bit. Bulk payloads are arbitrary bytes. */
  predicate WellFormed(w: Wire) {
    match w
    case SimpleString(s) => LF !in s
    case SimpleError(s) => LF !in s
    case Bulk(s) => |s| < TWO_63
    case Array(items) => |items| < TWO_63 && forall i :: 0 <= i < |items| ==> WellFormed(items[i])
    case _ => true
  }

  function Header(kind: byte, body: bytes): bytes {
    [kind] + body + CRLF
  }

  function Serialize(w: Wire): bytes
    decreases w, 0
  {
    match w
    case SimpleString(s) => Header(T_SIMPLE, s)
    case SimpleError(s) => Header(T_ERROR, s)
    case Integer(i) => Header(T_INTEGER, Itoa(i))
    case Bulk(s) => Header(T_BULK, Itoa(|s|)) + s + CRLF
    case NullBulk => Header(T_BULK, Itoa(-1))
    case NullArray => Header(T_ARRAY, Itoa(-1))
    case Array(items) => Header(T_ARRAY, Itoa(|items|)) + SerializeAll(items)
  }

  function SerializeAll(ws: seq<Wire>): bytes
    decreases ws, 1
  {
    if ws == [] then [] else Serialize(ws[0]) + SerializeAll(ws[1..])
  }

  /** What a value means to the client: a Go value, or the first error inside it. */
  datatype Meaning<+T> = Value(v: T) | Fails(msg: bytes)

  function Means(w: Wire): Meaning<Reply>
    decreases w, 0
  {
    match w
    case SimpleString(s) => Value(Str(s))
    case SimpleError(s) => Fails(s)
    case Integer(i) => Value(Int(i))
    case Bulk(s) => Value(Str(s))
    case NullBulk => Value(Nil)
    case NullArray => Value(Nil)
    case Array(items) =>
      match MeansAll(items)
      case Fails(msg) => Fails(msg)
      case Value(vs) => Value(Arr(vs))
  }

  function MeansAll(ws: seq<Wire>): (m: Meaning<seq<Reply>>)
    ensures m.Value? ==> |m.v| == |ws|
    decreases ws, 1
  {
    if ws == [] then Value([])
    else match Means(ws[0])
      case Fails(msg) => Fails(msg)
      case Value(v) =>
        match MeansAll(ws[1..])
        case Fails(msg) => Fails(msg)
        case Value(vs) => Value([v] + vs)
  }

  /** The part of a value's own serialisation that an error inside it leaves unread. */
  function Abandoned(w: Wire): bytes
    decreases w, 0
  {
    match w
    case Array(items) => AbandonedAll(items)
    case _ => []
  }

  function AbandonedAll(ws: seq<Wire>): bytes
    decreases ws, 1
  {
    if ws == [] then []
    else if Means(ws[0]).Fails? then Abandoned(ws[0]) + SerializeAll(ws[1..])
    else AbandonedAll(ws[1..])
  }

  // ---------------------------------------------------------------------
  // Round trip
  // ---------------------------------------------------------------------

  lemma {:induction false} LineLengthIs(b: bytes, k: nat)
    requires k < |b| && b[k] == LF && LF !in b[..k]
    ensures LineLength(b) == k + 1
  {
    if k > 0 {
      assert b[..k] == [b[0]] + b[1..][..k - 1];
      LineLengthIs(b[1..], k - 1);
    }
  }

  lemma ParseHeader(kind: byte, body: bytes, rest: bytes)
    requires kind != LF && LF !in body
    ensures Parse(Header(kind, body) + rest) == ParseTyped(kind, body, rest)
  {
    hide ParseTyped;
    var b := Header(kind, body) + rest;
    assert b[..|body| + 2] == [kind] + body + [CR];
    LineLengthIs(b, |body| + 2);
    assert b[1..|body| + 1] == body && b[|body| + 3..] == rest;
  }

  lemma NumberHasNoLf(v: int)
    ensures LF !in Itoa(v)
  {
  }

  /** The parser's outcome on a value followed by anything at all. */
  ghost predicate ParsesTo(w: Wire, rest: bytes) {
    Parse(Serialize(w) + rest) ==
      match Means(w)
      case Value(v) => Ok(v, rest)
      case Fails(msg) => Err(ServerError(msg), Abandoned(w) + rest)
  }

  ghost predicate AllParseTo(ws: seq<Wire>, rest: bytes) {
    ParseItems(SerializeAll(ws) + rest, |ws|) ==
      match MeansAll(ws)
      case Value(vs) => Ok(vs, rest)
      case Fails(msg) => Err(ServerError(msg), AbandonedAll(ws) + rest)
  }

  lemma BulkParses(s: bytes, rest: bytes)
    requires |s| < TWO_63
    ensures ParsesTo(Bulk(s), rest)
  {
    hide Parse;
    hide Itoa;
    hide ParseInt;
    NumberHasNoLf(|s|);
    ItoaRoundTrip(|s|);
    var payload := s + CRLF + rest;
    ParseHeader(T_BULK, Itoa(|s|), payload);
    assert Serialize(Bulk(s)) + rest == Header(T_BULK, Itoa(|s|)) + payload;
    assert payload[..|s|] == s && payload[|s| + 2..] == rest;
  }

  lemma ScalarParses(w: Wire, rest: bytes)
    requires WellFormed(w) && !w.Bulk? && !w.Array?
    ensures ParsesTo(w, rest)
  {
    hide Parse;
    hide Itoa;
    hide ParseInt;
    match w
    case SimpleString(s) => ParseHeader(T_SIMPLE, s, rest);
    case SimpleError(s) => ParseHeader(T_ERROR, s, rest);
    case Integer(i) =>
      NumberHasNoLf(i);
      ItoaRoundTrip(i);
      ParseHeader(T_INTEGER, Itoa(i), rest);
    case NullBulk =>
      NumberHasNoLf(-1);
      ItoaRoundTrip(-1);
      ParseHeader(T_BULK, Itoa(-1), rest);
    case NullArray =>
      NumberHasNoLf(-1);
      ItoaRoundTrip(-1);
      ParseHeader(T_ARRAY, Itoa(-1), rest);
  }

  lemma ArrayParses(items: seq<Wire>, rest: bytes)
    requires |items| < TWO_63 && AllParseTo(items, rest)
    ensures ParsesTo(Array(items), rest)
  {
    hide Parse;
    hide ParseItems;
    hide SerializeAll;
    hide Itoa;
    hide ParseInt;
    NumberHasNoLf(|items|);
    ItoaRoundTrip(|items|);
    var more := SerializeAll(items) + rest;
    ParseHeader(T_ARRAY, Itoa(|items|), more);
    assert Serialize(Array(items)) + rest == Header(T_ARRAY, Itoa(|items|)) + more;
  }

  /** For every value and every trailing byte string, the reader returns that value
      and leaves exactly the trailing bytes; when an error reply sits inside the
      value, it reports the first one and leaves the siblings after it unread. */
  lemma {:induction false} RoundTrip(w: Wire, rest: bytes)
    requires WellFormed(w)
    ensures ParsesTo(w, rest)
    decreases w, 0
  {
    match w
    case Bulk(s) => BulkParses(s, rest);
    case Array(items) =>
      RoundTripAll(items, rest);
      ArrayParses(items, rest);
    case _ => ScalarParses(w, rest);
  }

  lemma {:induction false} RoundTripAll(ws: seq<Wire>, rest: bytes)
    requires forall i :: 0 <= i < |ws| ==> WellFormed(ws[i])
    ensures AllParseTo(ws, rest)
    decreases ws, 1
  {
    if ws == [] {
      assert SerializeAll(ws) + rest == rest;
    } else {
      RoundTrip(ws[0], SerializeAll(ws[1..]) + rest);
      RoundTripAll(ws[1..], rest);
      hide *;
      ItemsParse(ws, rest);
    }
  }

  lemma SerializeCons(ws: seq<Wire>, rest: bytes)
    requires ws != []
    ensures SerializeAll(ws) + rest == Serialize(ws[0]) + (SerializeAll(ws[1..]) + rest)
  {
    hide Serialize;
  }

  lemma AbandonedCons(ws: seq<Wire>, rest: bytes)
    requires ws != []
    ensures Means(ws[0]).Fails? ==>
      AbandonedAll(ws) + rest == Abandoned(ws[0]) + (SerializeAll(ws[1..]) + rest)
    ensures Means(ws[0]).Value? ==> AbandonedAll(ws) == AbandonedAll(ws[1..])
  {
    hide Abandoned;
    hide Means;
    hide SerializeAll;
  }

  lemma MeansCons(ws: seq<Wire>)
    requires ws != []
    ensures MeansAll(ws) ==
      match Means(ws[0])
      case Fails(msg) => Fails(msg)
      case Value(v) =>
        match MeansAll(ws[1..])
        case Fails(msg) => Fails(msg)
        case Value(vs) => Value([v] + vs)
  {
    hide Means;
  }

  lemma ItemsUnfold(b: bytes, n: nat)
    requires n > 0
    ensures ParseItems(b, n) ==
      match Parse(b)
      case Err(e, left) => Err(e, left)
      case Ok(v, left) =>
        match ParseItems(left, n - 1)
        case Err(e, left') => Err(e, left')
        case Ok(vs, left') => Ok([v] + vs, left')
  {
    hide Parse;
  }

  lemma ItemsParse(ws: seq<Wire>, rest: bytes)
    requires ws != [] && ParsesTo(ws[0], SerializeAll(ws[1..]) + rest) && AllParseTo(ws[1..], rest)
    ensures AllParseTo(ws, rest)
  {
    hide Serialize;
    hide SerializeAll;
    hide Parse;
    hide ParseItems;
    hide Means;
    hide MeansAll;
    hide Abandoned;
    hide AbandonedAll;
    SerializeCons(ws, rest);
    AbandonedCons(ws, rest);
    MeansCons(ws);
    ItemsUnfold(SerializeAll(ws) + rest, |ws|);
  }

  /** The end of the connection, come with the last bytes, costs the value. */
  lemma LateCosts(b: bytes)
    requires EndsLong(b)
    ensures Parse(Heard(b, true)) == Err(Eof, [])
  {
    EndsLongFails(b);
    hide *;
    LastByteLost(b);
  }

  /** After one bulk string and nothing else this can happen exactly when payload and
      terminator fill a read of `DIRECT` bytes or more. */
  lemma LongBulkEndsLong(s: bytes)
    requires |s| < TWO_63
    ensures EndsLong(Serialize(Bulk(s))) <==> |s| + 2 >= DIRECT
  {
    BulkBytes(s);
    NumberHasNoLf(|s|);
    ItoaRoundTrip(|s|);
    HeaderEndsLong(T_BULK, Itoa(|s|), s + CRLF);
    hide *;
    BulkEndsLong(Itoa(|s|), |s|, s + CRLF);
  }

  lemma BulkBytes(s: bytes)
    ensures Serialize(Bulk(s)) == Header(T_BULK, Itoa(|s|)) + (s + CRLF)
    ensures |s + CRLF| == |s| + 2
  {
    hide Itoa;
    hide Header;
  }

  lemma BulkEndsLong(body: bytes, len: nat, rest: bytes)
    requires ParseInt(body) == Some(len)
    ensures EndsLongTyped(T_BULK, body, rest) <==> |rest| == len + 2 >= DIRECT
  {
    hide ParseInt;
  }

  lemma LastByteLost(b: bytes)
    requires b != []
    ensures Heard(b, true) == b[..|b| - 1]
  {
  }

  lemma HeaderEndsLong(kind: byte, body: bytes, rest: bytes)
    requires kind != LF && LF !in body
    ensures EndsLong(Header(kind, body) + rest) <==> EndsLongTyped(kind, body, rest)
  {
    hide EndsLongTyped;
    var b := Header(kind, body) + rest;
    assert b[..|body| + 2] == [kind] + body + [CR];
    LineLengthIs(b, |body| + 2);
    assert b[1..|body| + 1] == body && b[|body| + 3..] == rest;
  }

  /** An error reply, if there is one, is the last thing in every array around it. */
  predicate ErrorComesLast(w: Wire) {
    w.Array? ==>
      forall i :: 0 <= i < |w.items| && Means(w.items[i]).Fails? ==> i == |w.items| - 1 && ErrorComesLast(w.items[i])
  }

  /** The connection stays in step, no byte of the value left behind, exactly when
      nothing follows an error inside the value. */
  lemma {:induction false} InStepExactlyWhen(w: Wire)
    requires WellFormed(w)
    ensures Abandoned(w) == [] <==> ErrorComesLast(w)
    decreases w, 0
  {
    match w
    case Array(items) => InStepAll(items);
    case _ =>
  }

  lemma {:induction false} InStepAll(ws: seq<Wire>)
    requires forall i :: 0 <= i < |ws| ==> WellFormed(ws[i])
    ensures AbandonedAll(ws) == [] <==>
      forall i :: 0 <= i < |ws| && Means(ws[i]).Fails? ==> i == |ws| - 1 && ErrorComesLast(ws[i])
    decreases ws, 1
  {
    if ws != [] {
      InStepExactlyWhen(ws[0]);
      InStepAll(ws[1..]);
      SerializeNonempty(ws[1..]);
      if Means(ws[0]).Fails? {
        assert AbandonedAll(ws) == Abandoned(ws[0]) + SerializeAll(ws[1..]);
      } else {
        assert forall i :: 1 <= i < |ws| ==> ws[i] == ws[1..][i - 1];
        assert forall i :: 0 <= i < |ws[1..]| ==> ws[1..][i] == ws[i + 1];
      }
    }
  }

  lemma SerializeNonempty(ws: seq<Wire>)
    ensures SerializeAll(ws) == [] <==> ws == []
  {
  }

  // ---------------------------------------------------------------------
  // The bytes themselves
  // ---------------------------------------------------------------------

  /** One value of each kind as the specification writes it: `+OK`, `-E`, `:-120`, a bulk
      string of two bytes, the null bulk string and null array, an array of one. */
  lemma WireExamples()
    ensures Serialize(SimpleString([0x4f, 0x4b])) == [0x2b, 0x4f, 0x4b, 0x0d, 0x0a]
    ensures Serialize(SimpleError([0x45])) == [0x2d, 0x45, 0x0d, 0x0a]
    ensures Serialize(Integer(-120)) == [0x3a, 0x2d, 0x31, 0x32, 0x30, 0x0d, 0x0a]
    ensures Serialize(Bulk([0x61, 0x0a])) == [0x24, 0x32, 0x0d, 0x0a, 0x61, 0x0a, 0x0d, 0x0a]
    ensures Serialize(NullBulk) == [0x24, 0x2d, 0x31, 0x0d, 0x0a]
    ensures Serialize(NullArray) == [0x2a, 0x2d, 0x31, 0x0d, 0x0a]
    ensures Serialize(Array([SimpleString([0x61])])) == [0x2a, 0x31, 0x0d, 0x0a, 0x2b, 0x61, 0x0d, 0x0a]
  {
    ItoaExample();
    SmallNumbers();
    hide Itoa;
    OneItem(SimpleString([0x61]));
  }

  lemma SmallNumbers()
    ensures Itoa(-1) == [0x2d, 0x31] && Itoa(1) == [0x31] && Itoa(2) == [0x32]
  {
  }

  lemma OneItem(w: Wire)
    ensures SerializeAll([w]) == Serialize(w)
  {
    assert [w][1..] == [] && Serialize(w) + [] == Serialize(w);
  }

  /** Every way a line can fail, and the nulls: what is reported, and what is left. */
  lemma LinesThatFail(kind: byte, body: bytes, rest: bytes)
    requires kind != 0x0a && 0x0a !in body
    ensures var r := Parse([kind] + body + [0x0d, 0x0a] + rest);
      (kind == 0x2d ==> r == Err(ServerError(body), rest)) &&
      (kind !in {0x2b, 0x2d, 0x3a, 0x24, 0x2a} ==> r == Err(UnknownType, rest)) &&
      (kind in {0x3a, 0x24, 0x2a} && ParseInt(body).None? ==> r == Err(BadNumber, rest)) &&
      (kind in {0x24, 0x2a} && ParseInt(body).Some? && ParseInt(body).value < 0 ==> r == Ok(Nil, rest)) &&
      (kind == 0x24 && ParseInt(body).Some? && ParseInt(body).value + 2 > |rest| ==>
         if ParseInt(body).value < 0 then r == Ok(Nil, rest) else r == Err(Eof, []))
  {
    ParseHeader(kind, body, rest);
    hide Parse;
    hide ParseInt;
    hide ParseItems;
    assert Header(kind, body) + rest == [kind] + body + [0x0d, 0x0a] + rest;
  }

  /** No line at all is the end of the input; one without room for a type is too short. */
  lemma NoLine(b: bytes)
    ensures 0x0a !in b ==> Parse(b) == Err(Eof, [])
    ensures b != [] && b[0] == 0x0a ==> Parse(b) == Err(ShortReply, b[1..])
    ensures |b| > 1 && b[0] != 0x0a && b[1] == 0x0a ==> Parse(b) == Err(ShortReply, b[2..])
  {
    if |b| > 1 && b[0] != 0x0a && b[1] == 0x0a {
      LineLengthIs(b, 1);
    }
    hide ParseTyped;
  }
}
