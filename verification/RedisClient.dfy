/** The RESP2 client: a buffered reader and writer over one connection. */
module RedisClient {
  import opened Bytes
  import opened Decimal
  import opened Resp

  /** `do`'s request: an array of bulk strings. */
  function Command(args: seq<bytes>): bytes {
    Header(T_ARRAY, Itoa(|args|)) + Bulks(args)
  }

  function Bulks(args: seq<bytes>): bytes {
    if args == [] then [] else Serialize(Bulk(args[0])) + Bulks(args[1..])
  }

  lemma BulksCons(args: seq<bytes>, i: nat)
    requires i < |args|
    ensures Bulks(args[i..]) == Header(T_BULK, Itoa(|args[i]|)) + args[i] + CRLF + Bulks(args[i + 1..])
  {
    hide Header;
    hide Itoa;
    assert args[i..][1..] == args[i + 1..];
  }

  const ZERO_CURSOR: bytes := [ZERO]
  const SCAN: bytes := [0x53, 0x43, 0x41, 0x4e]
  const MATCH: bytes := [0x4d, 0x41, 0x54, 0x43, 0x48]
  const COUNT: bytes := [0x43, 0x4f, 0x55, 0x4e, 0x54]

  function ScanCommand(cursor: bytes, pattern: bytes, count: int): bytes {
    Command([SCAN, cursor, MATCH, pattern, COUNT, Itoa(count)])
  }

  datatype ScanEnd = Complete | Failed(error: Error) | UnexpectedReply

  /** The string elements of a batch; anything else in it is skipped. */
  function Strings(batch: seq<Reply>): seq<bytes> {
    if batch == [] then []
    else
      var init := Strings(batch[..|batch| - 1]);
      var last := batch[|batch| - 1];
      if last.Str? then init + [last.s] else init
  }

  /** Of a batch, the strings, in order: nothing lost, nothing added. */
  lemma {:induction false} StringsAre(a: seq<Reply>, b: seq<Reply>, s: bytes, x: Reply)
    ensures Strings([]) == [] && Strings([Str(s)]) == [s] && (!x.Str? ==> Strings([x]) == [])
    ensures Strings(a + b) == Strings(a) + Strings(b)
    decreases |b|
  {
    assert [Str(s)][..0] == [] && [x][..0] == [];
    if b == [] {
      assert a + b == a && Strings(a) + Strings(b) == Strings(a);
    } else {
      StringsAre(a, b[..|b| - 1], s, x);
      assert (a + b)[..|a + b| - 1] == a + b[..|b| - 1];
    }
  }

  function BatchKeys(r: Reply): seq<bytes> {
    if r.Arr? then Strings(r.items) else []
  }

  /** `cursor, _ = arr[0].(string)`: a cursor that is not a string becomes empty. */
  function CursorOf(r: Reply): bytes {
    if r.Str? then r.s else []
  }

  /** `cut` is the request that could not be flushed, if the walk ends so. */
  datatype Scan = Scan(keys: seq<bytes>, sent: bytes, cut: bytes, end: ScanEnd, rest: bytes)

  /** The SCAN walk over the bytes the server will deliver, starting at `cursor`,
      when `flushes` more requests can be written. */
  function ScanFrom(input: bytes, cursor: bytes, pattern: bytes, count: int, flushes: nat): (s: Scan)
    ensures s.cut == [] || s.end == Failed(WriteFailed)
    decreases flushes
  {
    var request := ScanCommand(cursor, pattern, count);
    if flushes == 0 then Scan([], [], request, Failed(WriteFailed), input)
    else match Parse(input)
    case Err(e, rest) => Scan([], request, [], Failed(e), rest)
    case Ok(reply, rest) =>
      if !reply.Arr? || |reply.items| != 2 then Scan([], request, [], UnexpectedReply, rest)
      else
        var next, keys := CursorOf(reply.items[0]), BatchKeys(reply.items[1]);
        if next == ZERO_CURSOR then Scan(keys, request, [], Complete, rest)
        else
          var more := ScanFrom(rest, next, pattern, count, flushes - 1);
          Scan(keys + more.keys, request + more.sent, more.cut, more.end, more.rest)
  }

  /** Elements already read, then the outcome of the ones to come. */
  function After(done: seq<Reply>, p: Parsed<seq<Reply>>): Parsed<seq<Reply>> {
    match p
    case Err(e, left) => Err(e, left)
    case Ok(items, left) => Ok(done + items, left)
  }

  lemma AfterNothing(p: Parsed<seq<Reply>>)
    ensures After([], p) == p
  {
    assert p.Ok? ==> [] + p.value == p.value;
  }

  lemma AfterError(done: seq<Reply>, e: Error, left: bytes)
    ensures After(done, Err(e, left)) == Err(e, left)
  {
  }

  lemma NoItems(done: seq<Reply>, b: bytes)
    ensures After(done, ParseItems(b, 0)) == Ok(done, b)
  {
    assert done + [] == done;
  }

  lemma OnTime(b: bytes)
    ensures Heard(b, false) == b
  {
  }

  /** One element read, the others to come. */
  lemma ItemGoesOn(done: seq<Reply>, v: Reply, b: bytes, left: bytes, n: nat)
    requires n > 0 && Parse(b) == Ok(v, left)
    ensures After(done + [v], ParseItems(left, n - 1)) == After(done, ParseItems(b, n))
  {
    ItemsCons(b, n, v, left);
    AfterOne(done, v, ParseItems(left, n - 1));
    hide Parse;
    hide ParseItems;
  }

  lemma LongStep(b: bytes, n: nat)
    requires n > 0
    ensures EndsLong(b) ==> EndsLongItems(b, n)
    ensures Parse(b).Ok? && EndsLongItems(Parse(b).rest, n - 1) ==> EndsLongItems(b, n)
  {
    hide Parse;
    hide EndsLong;
  }

  lemma ParseByLine(b: bytes)
    ensures var n := LineLength(b);
      Parse(b) == (if n == 0 then Err(Eof, []) else if n < 3 then Err(ShortReply, b[n..])
                   else ParseTyped(b[0], b[1..n - 2], b[n..])) &&
      (EndsLong(b) <==> n >= 3 && EndsLongTyped(b[0], b[1..n - 2], b[n..]))
  {
    hide ParseTyped;
    hide EndsLongTyped;
    hide LineLength;
  }

  lemma FirstFails(b: bytes, n: nat, e: Error, left: bytes)
    requires n > 0
    ensures Parse(b) == Err(e, left) ==> ParseItems(b, n) == Err(e, left)
    ensures Parse(Heard(b, true)) == Err(e, left) ==> ParseItems(Heard(b, true), n) == Err(e, left)
  {
    hide Parse;
  }

  lemma AfterOne(done: seq<Reply>, v: Reply, p: Parsed<seq<Reply>>)
    ensures After(done + [v], p) == After(done, After([v], p))
  {
    assert p.Ok? ==> done + [v] + p.value == done + ([v] + p.value);
  }

  /** Keys and bytes of the pages already walked, then the rest of the walk. */
  function Resume(keys: seq<bytes>, sent: bytes, s: Scan): Scan {
    Scan(keys + s.keys, sent + s.sent, s.cut, s.end, s.rest)
  }

  /** What the connection took in such a walk: all its requests, and any part of the one
      that could not be flushed. */
  predicate Took(sent: bytes, s: Scan) {
    s.sent <= sent <= s.sent + s.cut
  }

  lemma TookAll(sent: bytes, keys: seq<bytes>, end: ScanEnd, rest: bytes)
    ensures Took(sent, Scan(keys, sent, [], end, rest))
  {
  }

  lemma TookPart(asked: bytes, sent: bytes, keys: seq<bytes>, request: bytes, rest: bytes)
    requires asked <= sent <= asked + request
    ensures Took(sent, Scan(keys, asked, request, Failed(WriteFailed), rest))
  {
  }

  lemma ResumeTwice(keys: seq<bytes>, sent: bytes, more: seq<bytes>, request: bytes, s: Scan)
    ensures Resume(keys + more, sent + request, s) == Resume(keys, sent, Resume(more, request, s))
  {
    assert keys + more + s.keys == keys + (more + s.keys);
    assert sent + request + s.sent == sent + (request + s.sent);
  }

  lemma CommandIs(cursor: bytes, pattern: bytes, count: int)
    ensures ScanCommand(cursor, pattern, count) == Command([SCAN, cursor, MATCH, pattern, COUNT, Itoa(count)])
  {
    hide Command;
  }

  /** One turn of the walk, after keys and bytes already there. */
  lemma ScanStep(input: bytes, cursor: bytes, pattern: bytes, count: int, flushes: nat, keys: seq<bytes>, sent: bytes)
    ensures var request := ScanCommand(cursor, pattern, count);
      Resume(keys, sent, ScanFrom(input, cursor, pattern, count, flushes)) ==
      if flushes == 0 then Scan(keys, sent, request, Failed(WriteFailed), input)
      else match Parse(input)
        case Err(e, rest) => Scan(keys, sent + request, [], Failed(e), rest)
        case Ok(reply, rest) =>
          if !reply.Arr? || |reply.items| != 2 then Scan(keys, sent + request, [], UnexpectedReply, rest)
          else
            var next, found := CursorOf(reply.items[0]), BatchKeys(reply.items[1]);
            if next == ZERO_CURSOR then Scan(keys + found, sent + request, [], Complete, rest)
            else Resume(keys + found, sent + request, ScanFrom(rest, next, pattern, count, flushes - 1))
  {
    var request := ScanCommand(cursor, pattern, count);
    assert keys + [] == keys && sent + [] == sent;
    hide Parse;
    hide ScanCommand;
    hide BatchKeys;
    hide CursorOf;
    if flushes > 0 && Parse(input).Ok? {
      var reply, rest := Parse(input).value, Parse(input).rest;
      if reply.Arr? && |reply.items| == 2 {
        var next, found := CursorOf(reply.items[0]), BatchKeys(reply.items[1]);
        if next != ZERO_CURSOR {
          ResumeTwice(keys, sent, found, request, ScanFrom(rest, next, pattern, count, flushes - 1));
        }
      }
    }
  }

  class RedisClient {
    var unread: bytes    // every byte the server has yet to deliver
    var sent: bytes      // every byte the connection has taken
    var flushes: nat     // how many more flushes will succeed
    var broken: bool     // a flush has failed; bufio's writer keeps the error
    ghost var late: bool // a read brought the connection's end together with its last bytes

    ghost predicate Valid()
      reads this
    {
      (late ==> unread == []) && (broken ==> flushes == 0)
    }

    constructor (incoming: bytes, flushes: nat)
      ensures Valid() && !late && !broken && unread == incoming && sent == [] && this.flushes == flushes
    {
      this.unread, this.sent, this.flushes, this.late, this.broken := incoming, [], flushes, false, false;
    }

    /** bufio's `Read`: at most `max` bytes, however many happen to have arrived. One
        long enough to go straight to the connection may bring the last bytes and the
        connection's end at once. */
    method Read(max: nat) returns (chunk: bytes, eof: bool)
      requires Valid() && max > 0
      modifies this`unread, this`late
      ensures Valid() && old(unread) == chunk + unread && |chunk| <= max
      ensures !eof ==> chunk != []
      ensures eof ==> unread == []
      ensures late <==> old(late) || (eof && chunk != [])
      ensures eof && chunk != [] ==> max >= DIRECT
    {
      if unread == [] {
        return [], true;
      }
      var m: nat :| 0 < m <= max && m <= |unread|;
      chunk, eof := unread[..m], false;
      unread := unread[m..];
      if unread == [] && max >= DIRECT {
        eof := *;
        late := eof;
      }
    }

    /** `readFull`: it fails exactly when there are too few bytes or when the read that
        completes the buffer brings the connection's end with it; otherwise the outcome
        does not depend on how the reads were cut. */
    method ReadFull(size: nat) returns (buf: bytes, eof: bool)
      requires Valid()
      modifies this`unread, this`late
      ensures Valid() && (old(late) ==> late)
      ensures eof <==> size > |old(unread)| || (late && !old(late))
      ensures late && !old(late) ==> size >= DIRECT && size >= |old(unread)| > 0
      ensures !eof ==> buf == old(unread)[..size] && unread == old(unread)[size..]
      ensures eof ==> unread == []
    {
      buf, eof := [], false;
      while |buf| < size
        invariant |buf| <= size && buf + unread == old(unread) && Valid()
        invariant late == old(late) && !eof
        decreases size - |buf|
      {
        var chunk, done := Read(size - |buf|);
        buf := buf + chunk;
        if done {
          return buf, true;
        }
      }
      assert old(unread)[..size] == buf && old(unread)[size..] == unread;
    }

    /** `ReadString('\n')`: a line with its terminator, or everything and EOF. */
    method ReadLine() returns (line: bytes, eof: bool)
      requires Valid()
      modifies this`unread
      ensures Valid() && (eof <==> LineLength(old(unread)) == 0)
      ensures !eof ==> line == old(unread)[..LineLength(old(unread))]
      ensures !eof ==> unread == old(unread)[LineLength(old(unread))..]
      ensures eof ==> unread == []
    {
      var n := LineLength(unread);
      if n == 0 {
        line, eof, unread := unread, true, [];
      } else {
        line, eof, unread := unread[..n], false, unread[n..];
      }
    }

    /** `readReply`, recursive over arrays: the value or error of `Parse` on the bytes
        as good as delivered, and exactly the bytes it says are left. The connection's
        end can cost a byte only where the value's last byte completes a long read. */
    method ReadReply() returns (r: Parsed<Reply>)
      requires Valid()
      modifies this`unread, this`late
      ensures Valid() && (old(late) ==> late) && unread == r.rest
      ensures r == Parse(Heard(old(unread), late && !old(late)))
      ensures !EndsLong(old(unread)) ==> r == Parse(old(unread))
      ensures late && !old(late) ==> old(unread) != [] && r == Err(Eof, [])
      decreases |unread|, 0
    {
      ghost var input := unread;
      ParseByLine(input);
      hide Parse;
      hide ParseTyped;
      hide EndsLong;
      hide EndsLongTyped;
      hide LineLength;
      var line, eof := ReadLine();
      if eof {
        return Err(Eof, unread);
      }
      if |line| < 3 {
        return Err(ShortReply, unread);
      }
      var kind, body := line[0], line[1..|line| - 2];
      assert body == input[1..|line| - 2];
      r := ReadTyped(kind, body);
      if late && !old(late) {
        LineOfPrefix(input);
        ParsePrefix(input, |line|);
      }
    }

    method ReadTyped(kind: byte, body: bytes) returns (r: Parsed<Reply>)
      requires Valid()
      modifies this`unread, this`late
      ensures Valid() && (old(late) ==> late) && unread == r.rest
      ensures r == ParseTyped(kind, body, Heard(old(unread), late && !old(late)))
      ensures !EndsLongTyped(kind, body, old(unread)) ==> r == ParseTyped(kind, body, old(unread))
      ensures late && !old(late) ==> old(unread) != [] && r == Err(Eof, [])
      decreases |unread|, 2
    {
      if kind == T_SIMPLE {
        return Ok(Str(body), unread);
      } else if kind == T_ERROR {
        return Err(ServerError(body), unread);
      }
      if kind != T_INTEGER && kind != T_BULK && kind != T_ARRAY {
        return Err(UnknownType, unread);
      }
      var n := ParseInt(body);
      if n.None? {
        return Err(BadNumber, unread);
      } else if kind == T_INTEGER {
        return Ok(Int(n.value), unread);
      } else if n.value < 0 {
        return Ok(Nil, unread);
      } else if kind == T_BULK {
        var len: nat := n.value;
        var buf, eof := ReadFull(len + 2);
        if eof {
          return Err(Eof, unread);
        }
        assert buf[..len] == old(unread)[..len];
        r := Ok(Str(buf[..len]), unread);
      } else {
        var items := ReadItems(n.value);
        r := match items
          case Err(e, left) => Err(e, left)
          case Ok(vs, left) => Ok(Arr(vs), left);
      }
    }

    /** The array loop, stopping at the first element that fails. */
    method ReadItems(n: nat) returns (r: Parsed<seq<Reply>>)
      requires Valid()
      modifies this`unread, this`late
      ensures Valid() && (old(late) ==> late) && unread == r.rest
      ensures r == ParseItems(Heard(old(unread), late && !old(late)), n)
      ensures !EndsLongItems(old(unread), n) ==> r == ParseItems(old(unread), n)
      ensures late && !old(late) ==> old(unread) != [] && r == Err(Eof, [])
      decreases |unread|, 1
    {
      ghost var input := unread;
      var arr: seq<Reply> := [];
      hide *;
      AfterNothing(ParseItems(unread, n));
      AfterNothing(ParseItems(Heard(unread, true), n));
      for i := 0 to n
        invariant |arr| == i && |unread| + 3 * i <= |input| && Valid() && late == old(late)
        invariant After(arr, ParseItems(unread, n - i)) == ParseItems(input, n)
        invariant unread != [] ==>
          After(arr, ParseItems(Heard(unread, true), n - i)) == ParseItems(Heard(input, true), n)
        invariant EndsLongItems(unread, n - i) ==> EndsLongItems(input, n)
      {
        ghost var before := unread;
        LongStep(before, n - i);
        OnTime(before);
        OnTime(input);
        var one := ReadReply();
        if one.Err? {
          FirstFails(before, n - i, one.error, unread);
          AfterError(arr, one.error, unread);
          return Err(one.error, unread);
        }
        ItemGoesOn(arr, one.value, before, unread, n - i);
        if unread != [] {
          ParseShorter(before);
          LastByteLost(before);
          ItemGoesOn(arr, one.value, Heard(before, true), Heard(unread, true), n - i);
        }
        arr := arr + [one.value];
      }
      OnTime(input);
      NoItems(arr, unread);
      r := Ok(arr, unread);
    }

    /** `do`: one request out, one reply in. A flush that fails may have sent the request
        up to any point; nothing is read then, and nothing is sent after it. */
    method Do(args: seq<bytes>) returns (r: Parsed<Reply>)
      requires Valid()
      modifies this
      ensures Valid() && (old(late) ==> late) && unread == r.rest
      ensures old(flushes) > 0 ==> flushes == old(flushes) - 1 && sent == old(sent) + Command(args)
      ensures old(flushes) > 0 ==> r == Parse(Heard(old(unread), late && !old(late)))
      ensures old(flushes) > 0 && !EndsLong(old(unread)) ==> r == Parse(old(unread))
      ensures old(flushes) == 0 ==> flushes == 0 && broken && r == Err(WriteFailed, old(unread))
      ensures old(flushes) == 0 ==> old(sent) <= sent <= old(sent) + Command(args)
      ensures old(broken) ==> sent == old(sent)
      ensures late && !old(late) ==> old(flushes) > 0 && old(unread) != [] && r == Err(Eof, [])
    {
      hide Parse;
      hide EndsLong;
      hide Command;
      hide Heard;
      var w := WriteCommand(args);
      if flushes == 0 {
        if !broken {
          var taken: nat :| taken <= |w|;
          sent, broken := sent + w[..taken], true;
        }
        return Err(WriteFailed, unread);
      }
      flushes, sent := flushes - 1, sent + w;
      r := ReadReply();
    }

    /** `scanMatch`: follows the cursor until the server says "0". `cut` is empty unless
        a flush failed, so otherwise the bytes sent are those of the walk. */
    method ScanMatch(pattern: bytes, count: int) returns (keys: seq<bytes>, end: ScanEnd)
      requires Valid()
      modifies this
      ensures Valid()
      ensures var input := Heard(old(unread), late && !old(late));
        var walk := Resume([], old(sent), ScanFrom(input, ZERO_CURSOR, pattern, count, old(flushes)));
        keys == walk.keys && end == walk.end && unread == walk.rest && Took(sent, walk)
    {
      hide *;
      keys := [];
      var cursor := ZERO_CURSOR;
      ghost var input := unread;
      OnTime(unread);
      ghost var whole := Resume([], sent, ScanFrom(unread, cursor, pattern, count, flushes));
      ghost var short := Resume([], sent, ScanFrom(Heard(unread, true), cursor, pattern, count, flushes));
      while true
        invariant Valid() && late == old(late)
        invariant Resume(keys, sent, ScanFrom(unread, cursor, pattern, count, flushes)) == whole
        invariant unread != [] ==>
          Resume(keys, sent, ScanFrom(Heard(unread, true), cursor, pattern, count, flushes)) == short
        decreases |unread|
      {
        ghost var before, left, asked, walked, from := unread, flushes, sent, keys, cursor;
        OnTime(unread);
        var rep := Do([SCAN, cursor, MATCH, pattern, COUNT, Itoa(count)]);
        CommandIs(from, pattern, count);
        ghost var heard := Heard(before, late && !old(late));
        ScanStep(heard, from, pattern, count, left, walked, asked);
        if rep.Err? {
          if left == 0 {
            TookPart(asked, sent, keys, ScanCommand(from, pattern, count), unread);
          } else {
            TookAll(sent, keys, Failed(rep.error), unread);
          }
          return keys, Failed(rep.error);
        }
        if !rep.value.Arr? || |rep.value.items| != 2 {
          TookAll(sent, keys, UnexpectedReply, unread);
          return keys, UnexpectedReply;
        }
        if unread != [] {
          ParseShorter(before);
          LastByteLost(before);
          ScanStep(Heard(before, true), from, pattern, count, left, walked, asked);
        }
        cursor := NextCursor(rep.value.items[0]);
        keys := AppendBatch(keys, rep.value.items[1]);
        if cursor == ZERO_CURSOR {
          TookAll(sent, keys, Complete, unread);
          return keys, Complete;
        }
      }
    }

    method WriteCommand(args: seq<bytes>) returns (w: bytes)
      ensures w == Command(args)
    {
      w := Header(T_ARRAY, Itoa(|args|));
      hide Header;
      hide Itoa;
      for i := 0 to |args|
        invariant w + Bulks(args[i..]) == Command(args)
      {
        var a := args[i];
        var bulk := Header(T_BULK, Itoa(|a|)) + a + CRLF;
        BulksCons(args, i);
        assert w + (bulk + Bulks(args[i + 1..])) == w + bulk + Bulks(args[i + 1..]);
        w := w + bulk;
      }
      assert w + [] == w;
    }

    method NextCursor(r: Reply) returns (cursor: bytes)
      ensures cursor == CursorOf(r)
    {
      cursor := if r.Str? then r.s else [];
    }

    method AppendBatch(keys: seq<bytes>, r: Reply) returns (all: seq<bytes>)
      ensures all == keys + BatchKeys(r)
    {
      if r.Arr? {
        all := AppendStrings(keys, r.items);
      } else {
        all := keys + [];
      }
    }
  }

  method AppendStrings(keys: seq<bytes>, batch: seq<Reply>) returns (r: seq<bytes>)
    ensures r == keys + Strings(batch)
  {
    r := keys;
    for i := 0 to |batch|
      invariant r == keys + Strings(batch[..i])
    {
      assert batch[..i + 1][..i] == batch[..i];
      if batch[i].Str? {
        r := r + [batch[i].s];
      }
    }
    assert batch[..|batch|] == batch;
  }

  // ---------------------------------------------------------------------
  // What a request and a full walk mean
  // ---------------------------------------------------------------------

  function BulkValues(args: seq<bytes>): (ws: seq<Wire>)
    ensures |ws| == |args|
  {
    seq(|args|, i requires 0 <= i < |args| => Bulk(args[i]))
  }

  function StringValues(args: seq<bytes>): (vs: seq<Reply>)
    ensures |vs| == |args|
  {
    seq(|args|, i requires 0 <= i < |args| => Str(args[i]))
  }

  lemma {:induction false} BulksMean(args: seq<bytes>)
    ensures SerializeAll(BulkValues(args)) == Bulks(args)
    ensures MeansAll(BulkValues(args)) == Value(StringValues(args))
  {
    hide Serialize;
    if args != [] {
      BulksMean(args[1..]);
      assert BulkValues(args)[1..] == BulkValues(args[1..]);
      assert [Str(args[0])] + StringValues(args[1..]) == StringValues(args);
    }
  }

  /** A server reading a request with this same reader gets back the argument list,
      whatever bytes the arguments hold, and nothing else is consumed. */
  lemma CommandRoundTrip(args: seq<bytes>, rest: bytes)
    requires |args| < TWO_63 && forall i :: 0 <= i < |args| ==> |args[i]| < TWO_63
    ensures Parse(Command(args) + rest)
         == Ok(Arr(StringValues(args)), rest)
  {
    hide Parse;
    BulksMean(args);
    RoundTrip(Array(BulkValues(args)), rest);
    assert Serialize(Array(BulkValues(args))) == Command(args);
  }

  /** One page as the server sends it: the next cursor and a batch. */
  datatype Page = Page(cursor: bytes, batch: seq<Wire>)

  function PageWire(p: Page): Wire {
    Array([Bulk(p.cursor), Array(p.batch)])
  }

  ghost predicate GoodPage(p: Page) {
    WellFormed(PageWire(p)) && MeansAll(p.batch).Value?
  }

  /** A complete walk: only the last page carries the zero cursor. */
  ghost predicate Walk(pages: seq<Page>) {
    pages != [] && pages[|pages| - 1].cursor == ZERO_CURSOR &&
    (forall i :: 0 <= i < |pages| ==> GoodPage(pages[i])) &&
    forall i :: 0 <= i < |pages| - 1 ==> pages[i].cursor != ZERO_CURSOR
  }

  function PageBytes(pages: seq<Page>): bytes {
    if pages == [] then [] else Serialize(PageWire(pages[0])) + PageBytes(pages[1..])
  }

  function AllKeys(pages: seq<Page>): seq<bytes>
    requires forall i :: 0 <= i < |pages| ==> MeansAll(pages[i].batch).Value?
  {
    if pages == [] then [] else Strings(MeansAll(pages[0].batch).v) + AllKeys(pages[1..])
  }

  /** One command per page, each quoting the cursor of the page before. */
  function Requests(cursor: bytes, pages: seq<Page>, pattern: bytes, count: int): bytes
    decreases |pages|
  {
    if pages == [] then []
    else ScanCommand(cursor, pattern, count) + Requests(pages[0].cursor, pages[1..], pattern, count)
  }

  lemma PageMeans(p: Page)
    requires MeansAll(p.batch).Value?
    ensures Means(PageWire(p)) == Value(Arr([Str(p.cursor), Arr(MeansAll(p.batch).v)]))
  {
    var ws := [Bulk(p.cursor), Array(p.batch)];
    assert ws[1..] == [Array(p.batch)] && ws[1..][1..] == [];
    var keys := Arr(MeansAll(p.batch).v);
    assert Means(Array(p.batch)) == Value(keys);
    assert [keys] + [] == [keys];
    assert MeansAll(ws[1..]) == Value([keys]);
    assert Means(ws[0]) == Value(Str(p.cursor));
    assert [Str(p.cursor)] + [keys] == [Str(p.cursor), keys];
    assert MeansAll(ws) == Value([Str(p.cursor), keys]);
  }

  lemma PageReads(p: Page, more: bytes)
    requires GoodPage(p)
    ensures Parse(Serialize(PageWire(p)) + more) == Ok(Arr([Str(p.cursor), Arr(MeansAll(p.batch).v)]), more)
  {
    PageMeans(p);
    RoundTrip(PageWire(p), more);
    hide Parse;
    hide Serialize;
    hide MeansAll;
  }

  /** One page of the walk, read. */
  lemma ScanPage(input: bytes, cursor: bytes, pattern: bytes, count: int, flushes: nat, next: bytes, vs: seq<Reply>,
                 rest: bytes)
    requires flushes > 0 && Parse(input) == Ok(Arr([Str(next), Arr(vs)]), rest)
    ensures var request := ScanCommand(cursor, pattern, count);
      var more := ScanFrom(rest, next, pattern, count, flushes - 1);
      ScanFrom(input, cursor, pattern, count, flushes) ==
      if next == ZERO_CURSOR then Scan(Strings(vs), request, [], Complete, rest)
      else Scan(Strings(vs) + more.keys, request + more.sent, more.cut, more.end, more.rest)
  {
    hide Parse;
    hide ScanCommand;
    hide Strings;
  }

  lemma LastPage(pages: seq<Page>, rest: bytes, cursor: bytes, pattern: bytes, count: int)
    requires |pages| == 1 && Walk(pages)
    ensures PageBytes(pages) + rest == Serialize(PageWire(pages[0])) + rest
    ensures AllKeys(pages) == Strings(MeansAll(pages[0].batch).v)
    ensures Requests(cursor, pages, pattern, count) == ScanCommand(cursor, pattern, count)
  {
    hide ScanCommand;
    hide Serialize;
    hide Strings;
    assert pages[1..] == [];
  }

  lemma {:induction false} MorePages(pages: seq<Page>, rest: bytes)
    requires |pages| > 1 && Walk(pages)
    ensures PageBytes(pages) + rest == Serialize(PageWire(pages[0])) + (PageBytes(pages[1..]) + rest)
    ensures pages[0].cursor != ZERO_CURSOR && Walk(pages[1..])
  {
    hide Serialize;
    hide GoodPage;
  }

  lemma FirstGood(pages: seq<Page>)
    requires Walk(pages)
    ensures |pages| > 0 && GoodPage(pages[0]) && MeansAll(pages[0].batch).Value?
    ensures |pages| == 1 ==> pages[0].cursor == ZERO_CURSOR
    ensures forall i :: 0 <= i < |pages| ==> MeansAll(pages[i].batch).Value?
  {
    hide MeansAll;
    hide WellFormed;
  }

  lemma MoreAsked(pages: seq<Page>, cursor: bytes, pattern: bytes, count: int)
    requires |pages| > 1 && forall i :: 0 <= i < |pages| ==> MeansAll(pages[i].batch).Value?
    ensures AllKeys(pages) == Strings(MeansAll(pages[0].batch).v) + AllKeys(pages[1..])
    ensures Requests(cursor, pages, pattern, count) ==
      ScanCommand(cursor, pattern, count) + Requests(pages[0].cursor, pages[1..], pattern, count)
  {
    hide MeansAll;
    hide Strings;
    hide ScanCommand;
  }

  lemma {:induction false} ScanRest(pages: seq<Page>, rest: bytes, cursor: bytes, pattern: bytes, count: int,
                                    flushes: nat)
    requires |pages| > 1 && Walk(pages) && MeansAll(pages[0].batch).Value? && flushes > 0
    ensures Walk(pages[1..])
    ensures var request, keys := ScanCommand(cursor, pattern, count), Strings(MeansAll(pages[0].batch).v);
      var more := ScanFrom(PageBytes(pages[1..]) + rest, pages[0].cursor, pattern, count, flushes - 1);
      ScanFrom(PageBytes(pages) + rest, cursor, pattern, count, flushes) ==
      Scan(keys + more.keys, request + more.sent, more.cut, more.end, more.rest)
  {
    FirstGood(pages);
    MorePages(pages, rest);
    hide *;
    var p, more := pages[0], PageBytes(pages[1..]) + rest;
    PageReads(p, more);
    ScanPage(PageBytes(pages) + rest, cursor, pattern, count, flushes, p.cursor, MeansAll(p.batch).v, more);
  }

  lemma ScanLast(pages: seq<Page>, rest: bytes, cursor: bytes, pattern: bytes, count: int, flushes: nat)
    requires |pages| == 1 && Walk(pages) && MeansAll(pages[0].batch).Value? && flushes > 0
    ensures ScanFrom(PageBytes(pages) + rest, cursor, pattern, count, flushes)
         == Scan(Strings(MeansAll(pages[0].batch).v), ScanCommand(cursor, pattern, count), [], Complete, rest)
  {
    FirstGood(pages);
    LastPage(pages, rest, cursor, pattern, count);
    hide *;
    var p := pages[0];
    PageReads(p, rest);
    ScanPage(PageBytes(pages) + rest, cursor, pattern, count, flushes, p.cursor, MeansAll(p.batch).v, rest);
  }

  /** A full walk returns every string of every page in order, asks with the right
      chain of cursors and leaves what follows the last page unread. */
  lemma {:induction false} WalkCollectsAll(pages: seq<Page>, rest: bytes, cursor: bytes, pattern: bytes, count: int,
                                          flushes: nat)
    requires Walk(pages) && flushes >= |pages|
    ensures ScanFrom(PageBytes(pages) + rest, cursor, pattern, count, flushes)
         == Scan(AllKeys(pages), Requests(cursor, pages, pattern, count), [], Complete, rest)
    decreases |pages|
  {
    hide *;
    FirstGood(pages);
    if |pages| == 1 {
      LastPage(pages, rest, cursor, pattern, count);
      ScanLast(pages, rest, cursor, pattern, count, flushes);
    } else {
      MoreAsked(pages, cursor, pattern, count);
      ScanRest(pages, rest, cursor, pattern, count, flushes);
      WalkCollectsAll(pages[1..], rest, pages[0].cursor, pattern, count, flushes - 1);
    }
  }

  // ---------------------------------------------------------------------
  // A walk over pages of keys
  // ---------------------------------------------------------------------

  function Concat<T>(parts: seq<seq<T>>): seq<T> {
    if parts == [] then [] else parts[0] + Concat(parts[1..])
  }

  lemma {:induction false} ConcatIs<T>(a: seq<seq<T>>, b: seq<seq<T>>, p: seq<T>)
    ensures Concat<T>([]) == [] && Concat([p]) == p && Concat(a + b) == Concat(a) + Concat(b)
  {
    assert [p][1..] == [];
    if a == [] {
      assert a + b == b && Concat(a) + Concat(b) == Concat(b);
    } else {
      ConcatIs(a[1..], b, p);
      assert (a + b)[1..] == a[1..] + b;
    }
  }

  lemma {:induction false} StringsOfValues(ks: seq<bytes>)
    ensures Strings(StringValues(ks)) == ks
  {
    if ks != [] {
      var init := ks[..|ks| - 1];
      StringsOfValues(init);
      assert StringValues(ks)[..|ks| - 1] == StringValues(init);
      assert ks == init + [ks[|ks| - 1]];
    }
  }

  lemma BatchMeans(batch: seq<Wire>, ks: seq<bytes>)
    requires |batch| == |ks| && forall j :: 0 <= j < |ks| ==> batch[j] == Bulk(ks[j])
    ensures MeansAll(batch) == Value(StringValues(ks))
  {
    assert batch == BulkValues(ks);
    BulksMean(ks);
  }

  /** The pages hold these keys, as bulk strings. */
  ghost predicate Holding(pages: seq<Page>, ks: seq<seq<bytes>>) {
    |ks| == |pages| &&
    forall i :: 0 <= i < |ks| ==>
      |pages[i].batch| == |ks[i]| && forall j :: 0 <= j < |ks[i]| ==> pages[i].batch[j] == Bulk(ks[i][j])
  }

  lemma {:induction false} KeysConcat(pages: seq<Page>, ks: seq<seq<bytes>>)
    requires Holding(pages, ks)
    requires forall i :: 0 <= i < |pages| ==> MeansAll(pages[i].batch).Value?
    ensures AllKeys(pages) == Concat(ks)
  {
    hide MeansAll;
    hide Strings;
    if pages != [] {
      KeysConcat(pages[1..], ks[1..]);
      BatchMeans(pages[0].batch, ks[0]);
      StringsOfValues(ks[0]);
    }
  }

  /** `SCAN cursor MATCH pattern COUNT count`, spelled out. */
  function Asking(cursor: bytes, pattern: bytes, count: int): seq<bytes> {
    [[0x53, 0x43, 0x41, 0x4e], cursor, [0x4d, 0x41, 0x54, 0x43, 0x48], pattern, [0x43, 0x4f, 0x55, 0x4e, 0x54],
     Itoa(count)]
  }

  lemma {:induction false} RequestsConcat(cursor: bytes, pages: seq<Page>, pattern: bytes, count: int)
    returns (requests: seq<bytes>)
    ensures |requests| == |pages| && Requests(cursor, pages, pattern, count) == Concat(requests)
    ensures forall k :: 0 <= k < |pages| ==>
      requests[k] == Command(Asking(if k == 0 then cursor else pages[k - 1].cursor, pattern, count))
    decreases |pages|
  {
    hide Command;
    requests := [];
    if pages != [] {
      var more := RequestsConcat(pages[0].cursor, pages[1..], pattern, count);
      requests := [ScanCommand(cursor, pattern, count)] + more;
      assert requests[1..] == more;
    }
  }

  /** The keys a full walk returns are the pages' keys, page after page; and it sends one
      request for each page, the first with cursor 0, each other with the cursor of the
      page before. */
  lemma WalkReturnsKeys(pages: seq<Page>, ks: seq<seq<bytes>>, rest: bytes, pattern: bytes, count: int, flushes: nat)
    returns (requests: seq<bytes>)
    requires Walk(pages) && flushes >= |pages| && Holding(pages, ks)
    ensures ScanFrom(PageBytes(pages) + rest, [0x30], pattern, count, flushes)
         == Scan(Concat(ks), Concat(requests), [], Complete, rest)
    ensures |requests| == |pages|
    ensures forall k :: 0 <= k < |pages| ==>
      requests[k] == Command(Asking(if k == 0 then [0x30] else pages[k - 1].cursor, pattern, count))
  {
    WalkCollectsAll(pages, rest, [0x30], pattern, count, flushes);
    KeysConcat(pages, ks);
    requests := RequestsConcat([0x30], pages, pattern, count);
    hide *;
  }
}
