/** Following a pod's log: chunks arrive cut anywhere, whole lines go out. */
module LineFollow {
  import opened Bytes
  import opened Utf8

  /** `str.split("\n")`: at least one piece, the last possibly empty. */
  function Split(s: string): (r: seq<string>)
    ensures |r| > 0
  {
    if s == "" then [""]
    else
      var rest := Split(s[1..]);
      if s[0] == '\n' then [""] + rest else [[s[0]] + rest[0]] + rest[1..]
  }

  /** `"\n".join(pieces)`. */
  function Join(pieces: seq<string>): string
    requires |pieces| > 0
  {
    if |pieces| == 1 then pieces[0] else pieces[0] + "\n" + Join(pieces[1..])
  }

  /** Splitting loses nothing and leaves no newline in a piece. */
  lemma {:induction false} SplitJoins(s: string)
    ensures Join(Split(s)) == s
    ensures forall p :: p in Split(s) ==> '\n' !in p
  {
    if s != "" {
      SplitJoins(s[1..]);
      var rest := Split(s[1..]);
      assert s == [s[0]] + s[1..];
      if s[0] == '\n' {
        assert Split(s)[1..] == rest;
      } else {
        assert Split(s)[1..] == rest[1..];
        assert rest[0] in rest;
        forall p | p in Split(s) ensures '\n' !in p {
          assert p == [s[0]] + rest[0] || p in rest[1..];
        }
      }
    }
  }

  /** `rest` with `c` put before its first piece, or with an empty piece before it. */
  function Grow(c: char, rest: seq<string>): (r: seq<string>)
    requires |rest| > 0
    ensures |r| > 0
  {
    if c == '\n' then [""] + rest else [[c] + rest[0]] + rest[1..]
  }

  lemma SplitCons(c: char, s: string)
    ensures Split([c] + s) == Grow(c, Split(s))
  {
    assert ([c] + s)[1..] == s;
  }

  lemma JoinNewline(pieces: seq<string>)
    requires |pieces| > 1 && pieces[0] == ""
    ensures Join(pieces) == ['\n'] + Join(pieces[1..]) && pieces == Grow('\n', pieces[1..])
  {
  }

  lemma JoinFirst(pieces: seq<string>, shorter: seq<string>)
    requires |pieces| > 0 && pieces[0] != "" && '\n' !in pieces[0]
    requires shorter == [pieces[0][1..]] + pieces[1..]
    ensures Join(pieces) == [pieces[0][0]] + Join(shorter) && pieces == Grow(pieces[0][0], shorter)
  {
    assert shorter[1..] == pieces[1..];
    assert pieces[0][0] in pieces[0] && pieces[0] == [pieces[0][0]] + pieces[0][1..];
    assert pieces == [pieces[0]] + pieces[1..];
  }

  /** Nothing else has those two properties: the pieces are determined by the text. */
  lemma {:induction false} SplitUnique(pieces: seq<string>)
    requires |pieces| > 0 && forall p :: p in pieces ==> '\n' !in p
    ensures Split(Join(pieces)) == pieces
    decreases |pieces|, |pieces[0]|
  {
    var head := pieces[0];
    assert head in pieces;
    if head != "" {
      var shorter := [head[1..]] + pieces[1..];
      assert forall p :: p in shorter ==> p == head[1..] || p in pieces;
      hide *;
      SplitUnique(shorter);
      JoinFirst(pieces, shorter);
      SplitCons(head[0], Join(shorter));
    } else if |pieces| > 1 {
      hide *;
      SplitUnique(pieces[1..]);
      JoinNewline(pieces);
      SplitCons('\n', Join(pieces[1..]));
    }
  }

  lemma GrowAppend(c: char, rest: seq<string>, tail: seq<string>)
    requires |tail| > 0 && (|rest| > 1 || (|rest| == 1 && c == '\n'))
    ensures var ps := Grow(c, rest);
      Grow(c, rest[..|rest| - 1] + tail) == ps[..|ps| - 1] + tail && ps[|ps| - 1] == rest[|rest| - 1]
  {
    if c == '\n' {
      assert [""] + (rest[..|rest| - 1] + tail) == ([""] + rest)[..|rest|] + tail;
    } else {
      GrowFirst(c, rest, tail);
    }
  }

  lemma GrowText(c: char, first: string, more: seq<string>)
    requires c != '\n'
    ensures Grow(c, [first] + more) == [[c] + first] + more
  {
  }

  lemma Ends(rest: seq<string>)
    requires |rest| > 1
    ensures rest == [rest[0]] + (rest[1..|rest| - 1] + [rest[|rest| - 1]])
    ensures rest[..|rest| - 1] == [rest[0]] + rest[1..|rest| - 1]
  {
  }

  lemma Regroup(a: seq<string>, b: seq<string>, c: seq<string>)
    ensures a + b + c == a + (b + c)
  {
  }

  lemma InitOf(a: seq<string>, last: string)
    ensures (a + [last])[..|a + [last]| - 1] == a && (a + [last])[|a + [last]| - 1] == last
  {
  }

  lemma GrowFirst(c: char, rest: seq<string>, tail: seq<string>)
    requires |tail| > 0 && |rest| > 1 && c != '\n'
    ensures var ps := Grow(c, rest);
      Grow(c, rest[..|rest| - 1] + tail) == ps[..|ps| - 1] + tail && ps[|ps| - 1] == rest[|rest| - 1]
  {
    hide *;
    var first, mid, last := rest[0], rest[1..|rest| - 1], rest[|rest| - 1];
    Ends(rest);
    GrowText(c, first, mid + [last]);
    GrowText(c, first, mid + tail);
    Regroup([first], mid, tail);
    Regroup([[c] + first], mid, tail);
    Regroup([[c] + first], mid, [last]);
    InitOf([[c] + first] + mid, last);
  }

  /** Text split so far, then more text: only the last piece can still grow. */
  lemma {:induction false} SplitAppend(a: string, b: string)
    ensures var ps := Split(a); Split(a + b) == ps[..|ps| - 1] + Split(ps[|ps| - 1] + b)
  {
    hide *;
    if a == "" {
      SplitNothing(a, b);
    } else {
      SplitAppend(a[1..], b);
      FirstOff(a, b);
      SplitCons(a[0], a[1..]);
      SplitCons(a[0], a[1..] + b);
      SplitAppendStep(a[0], b, Split(a[1..]));
    }
  }

  lemma SplitNothing(a: string, b: string)
    requires a == ""
    ensures Split(a) == [""] && a + b == b && Split(a)[..0] + Split("" + b) == Split(b)
  {
    assert "" + b == b;
  }

  lemma FirstOff(a: string, b: string)
    requires a != ""
    ensures a == [a[0]] + a[1..] && a + b == [a[0]] + (a[1..] + b)
  {
  }

  lemma SplitAppendStep(c: char, b: string, rest: seq<string>)
    requires |rest| > 0
    ensures var ps := Grow(c, rest);
      Grow(c, rest[..|rest| - 1] + Split(rest[|rest| - 1] + b)) == ps[..|ps| - 1] + Split(ps[|ps| - 1] + b)
  {
    hide Split;
    if |rest| == 1 && c != '\n' {
      OnlyPiece(c, b, rest);
    } else {
      hide Grow;
      GrowAppend(c, rest, Split(rest[|rest| - 1] + b));
    }
  }

  lemma OnlyPiece(c: char, b: string, rest: seq<string>)
    requires |rest| == 1 && c != '\n'
    ensures var ps := Grow(c, rest);
      Grow(c, rest[..|rest| - 1] + Split(rest[|rest| - 1] + b)) == ps[..|ps| - 1] + Split(ps[|ps| - 1] + b)
  {
    var tail := Split(rest[0] + b);
    assert Grow(c, rest) == [[c] + rest[0]] && rest[..0] + tail == tail;
    assert [c] + rest[0] + b == [c] + (rest[0] + b);
    SplitCons(c, rest[0] + b);
    hide Split;
    hide Grow;
    assert [[c] + rest[0]][..0] + Grow(c, tail) == Grow(c, tail);
  }

  function NonEmpty(pieces: seq<string>): seq<string> {
    if pieces == [] then []
    else
      var init, last := NonEmpty(pieces[..|pieces| - 1]), pieces[|pieces| - 1];
      if last == "" then init else init + [last]
  }

  lemma {:induction false} NonEmptyAppend(a: seq<string>, b: seq<string>)
    ensures NonEmpty(a + b) == NonEmpty(a) + NonEmpty(b)
  {
    if b == [] {
      assert a + b == a;
    } else {
      NonEmptyAppend(a, b[..|b| - 1]);
      assert (a + b)[..|a + b| - 1] == a + b[..|b| - 1];
    }
  }

  lemma NonEmptyOne(p: string)
    ensures NonEmpty([]) == [] && NonEmpty([p]) == if p == "" then [] else [p]
  {
    assert [p][..0] == [];
  }

  lemma NonEmptyLast(pieces: seq<string>)
    requires pieces != []
    ensures var init, last := pieces[..|pieces| - 1], pieces[|pieces| - 1];
      NonEmpty(pieces) == if last == "" then NonEmpty(init) else NonEmpty(init) + [last]
  {
  }

  /** Before chunk `k`, the first that does not decode, only whole lines went out. */
  ghost predicate SentBefore(sent: seq<string>, chunks: seq<bytes>, k: nat) {
    k < |chunks| && Decode(chunks[k]).None? && EachDecodes(chunks[..k]) && Decode(Joined(chunks[..k])).Some? &&
    var ps := Split(Decode(Joined(chunks[..k])).value);
    sent == NonEmpty(ps[..|ps| - 1])
  }

  /** The follow loop. Each chunk of bytes is decoded by itself, so it finishes exactly
      when each of them decodes; then the messages sent, the final flush included, are
      exactly the nonempty lines of the whole text, in order. At the first chunk that
      does not decode it gives up: the whole lines before that were sent, and neither
      the piece still buffered nor anything that follows is. */
  method Follow(chunks: seq<bytes>) returns (sent: seq<string>, failed: bool)
    ensures !failed <==> EachDecodes(chunks)
    ensures !failed ==>
      Decode(Joined(chunks)).Some? && sent == NonEmpty(Split(Decode(Joined(chunks)).value))
    ensures failed ==> exists k :: SentBefore(sent, chunks, k)
  {
    assert Split("") == [""] && NonEmpty([]) == [];
    assert Decode(Joined([])) == Some("");
    sent, failed := [], false;
    var buffer := "";
    ghost var text := "";
    for i := 0 to |chunks|
      invariant EachDecodes(chunks[..i]) && Decode(Joined(chunks[..i])) == Some(text)
      invariant Follows(sent, buffer, text) && !failed
    {
      var chunk := Decode(chunks[i]);
      if chunk.None? {
        assert SentBefore(sent, chunks, i);
        return sent, true;
      }
      JoinedNext(chunks, i);
      DecodeNext(Joined(chunks[..i]), chunks[i]);
      hide *;
      sent, buffer := TakeChunk(sent, buffer, chunk.value, text);
      text := text + chunk.value;
    }
    assert chunks[..|chunks|] == chunks;
    NonEmptyLast(Split(text));
    if buffer != "" {
      sent := sent + [buffer];
    }
  }

  /** What the loop holds after reading `text`: its last piece, and the lines before it sent. */
  ghost predicate Follows(sent: seq<string>, buffer: string, text: string) {
    var ps := Split(text);
    buffer == ps[|ps| - 1] && sent == NonEmpty(ps[..|ps| - 1])
  }

  lemma JoinedNext(chunks: seq<bytes>, i: nat)
    requires i < |chunks| && EachDecodes(chunks[..i]) && Decode(chunks[i]).Some?
    ensures Joined(chunks[..i + 1]) == Joined(chunks[..i]) + chunks[i] && EachDecodes(chunks[..i + 1])
  {
    hide Decode;
    assert chunks[..i + 1][..i] == chunks[..i];
  }

  /** One turn of the loop: the new text, split at its newlines. */
  method TakeChunk(already: seq<string>, buffered: string, chunk: string, ghost text: string)
    returns (sent: seq<string>, buffer: string)
    requires Follows(already, buffered, text)
    ensures Follows(sent, buffer, text + chunk)
  {
    SplitAppend(text, chunk);
    hide Split;
    hide NonEmpty;
    var lines := Split(buffered + chunk);
    ghost var done := Split(text);
    AllButLast(done[..|done| - 1], lines);
    buffer, lines := lines[|lines| - 1], lines[..|lines| - 1];
    NonEmptyAppend(done[..|done| - 1], lines);
    sent := SendLines(already, lines);
  }

  lemma AllButLast(a: seq<string>, b: seq<string>)
    requires b != []
    ensures var all := a + b; all[..|all| - 1] == a + b[..|b| - 1] && all[|all| - 1] == b[|b| - 1]
  {
  }

  /** U+00E9 and a newline, cut after the first byte of the letter: nothing is sent. */
  lemma CutInsideCharacter()
    ensures Decode([0xC3, 0xA9, 0x0A]) == Some("\U{E9}\n")
    ensures var chunks: seq<bytes> := [[0xC3], [0xA9, 0x0A]];
      Joined(chunks) == [0xC3, 0xA9, 0x0A] && !EachDecodes(chunks) && SentBefore([], chunks, 0)
  {
    var s := "\U{E9}\n";
    assert s[1..] == "\n" && s[1..][1..] == "";
    assert Encode("\n") == [0x0A];
    assert Encode(s) == [0xC3, 0xA9, 0x0A];
    RoundTrip(s);
    var chunks: seq<bytes> := [[0xC3], [0xA9, 0x0A]];
    assert DecodeOne(chunks[0]).None?;
    assert chunks[..0] == [] && chunks[..1] == [[0xC3]] && chunks[..1][..0] == [];
    assert Joined(chunks[..1]) == [0xC3];
  }

  method SendLines(already: seq<string>, lines: seq<string>) returns (sent: seq<string>)
    ensures sent == already + NonEmpty(lines)
  {
    sent := already;
    for i := 0 to |lines|
      invariant sent == already + NonEmpty(lines[..i])
    {
      assert lines[..i + 1][..i] == lines[..i];
      if lines[i] != "" {
        sent := sent + [lines[i]];
      }
    }
    assert lines[..|lines|] == lines;
  }
}
