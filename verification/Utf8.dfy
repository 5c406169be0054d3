/** Strict UTF-8, as `bytes.decode("utf-8")` reads it: no overlong form, no surrogate,
    nothing past U+10FFFF, no character cut short. */
module Utf8 {
  import opened Bytes

  function EncodeChar(c: char): (b: bytes)
    ensures 1 <= |b| <= 4
  {
    var v := c as int;
    if v < 0x80 then [v]
    else if v < 0x800 then [0xC0 + v / 0x40, 0x80 + v % 0x40]
    else if v < 0x1_0000 then [0xE0 + v / 0x1000, 0x80 + v / 0x40 % 0x40, 0x80 + v % 0x40]
    else [0xF0 + v / 0x4_0000, 0x80 + v / 0x1000 % 0x40, 0x80 + v / 0x40 % 0x40, 0x80 + v % 0x40]
  }

  function Encode(s: string): bytes {
    if s == "" then [] else EncodeChar(s[0]) + Encode(s[1..])
  }

  predicate Continues(b: byte) {
    0x80 <= b < 0xC0
  }

  /** The six bits of a continuation byte. */
  function Low(b: byte): (v: nat)
    requires Continues(b)
    ensures v < 0x40
  {
    b as int - 0x80
  }

  predicate IsChar(v: int) {
    0 <= v < 0xD800 || 0xE000 <= v <= 0x10_FFFF
  }

  function Two(b: bytes): Option<(char, nat)>
    requires |b| > 0 && 0xC2 <= b[0] < 0xE0
  {
    if |b| < 2 || !Continues(b[1]) then None
    else Some((((b[0] as int - 0xC0) * 0x40 + Low(b[1])) as char, 2))
  }

  function Three(b: bytes): Option<(char, nat)>
    requires |b| > 0 && 0xE0 <= b[0] < 0xF0
  {
    if |b| < 3 || !Continues(b[1]) || !Continues(b[2]) then None
    else
      var v := (b[0] as int - 0xE0) * 0x1000 + Low(b[1]) * 0x40 + Low(b[2]);
      if v < 0x800 || !IsChar(v) then None else Some((v as char, 3))
  }

  function Four(b: bytes): Option<(char, nat)>
    requires |b| > 0 && 0xF0 <= b[0] < 0xF5
  {
    if |b| < 4 || !Continues(b[1]) || !Continues(b[2]) || !Continues(b[3]) then None
    else
      var v := (b[0] as int - 0xF0) * 0x4_0000 + Low(b[1]) * 0x1000 + Low(b[2]) * 0x40 + Low(b[3]);
      if v < 0x1_0000 || !IsChar(v) then None else Some((v as char, 4))
  }

  /** The character at the front, and how many bytes it took. */
  function DecodeOne(b: bytes): (r: Option<(char, nat)>)
    ensures r.Some? ==> 0 < r.value.1 <= |b|
  {
    if b == [] then None
    else if b[0] < 0x80 then Some((b[0] as char, 1))
    else if 0xC2 <= b[0] < 0xE0 then Two(b)
    else if 0xE0 <= b[0] < 0xF0 then Three(b)
    else if 0xF0 <= b[0] < 0xF5 then Four(b)
    else None
  }

  function Decode(b: bytes): Option<string>
    decreases |b|
  {
    if b == [] then Some("")
    else match DecodeOne(b)
      case None => None
      case Some((c, n)) =>
        match Decode(b[n..])
        case None => None
        case Some(s) => Some([c] + s)
  }

  /** A character of each length: A, U+00E9, U+20AC, U+1F600. */
  lemma EncodeExamples()
    ensures EncodeChar('A') == [0x41] && EncodeChar('\U{E9}') == [0xC3, 0xA9]
    ensures EncodeChar('\U{20AC}') == [0xE2, 0x82, 0xAC] && EncodeChar('\U{1F600}') == [0xF0, 0x9F, 0x98, 0x80]
  {
  }

  lemma CharReadsBack(c: char, rest: bytes)
    ensures DecodeOne(EncodeChar(c) + rest) == Some((c, |EncodeChar(c)|))
  {
    FrontOf(EncodeChar(c), rest);
    CharAtFront(c, EncodeChar(c) + rest);
  }

  lemma FrontOf(a: bytes, b: bytes)
    ensures |a + b| >= |a| && (a + b)[..|a|] == a
  {
  }

  lemma CharAtFront(c: char, b: bytes)
    requires |b| >= |EncodeChar(c)| && b[..|EncodeChar(c)|] == EncodeChar(c)
    ensures DecodeOne(b) == Some((c, |EncodeChar(c)|))
  {
    var v, e := c as int, EncodeChar(c);
    assert forall i :: 0 <= i < |e| ==> b[i] == e[i];
    SixBits(v);
    assert IsChar(v);
    if |e| == 2 {
      assert Two(b) == Some((c, 2));
    } else if |e| == 3 {
      assert Three(b) == Some((c, 3));
    } else if |e| == 4 {
      assert Four(b) == Some((c, 4));
    }
  }

  lemma Quotient(v: nat, q: nat, r: nat)
    requires v == 0x40 * q + r && r < 0x40
    ensures v / 0x40 == q && v % 0x40 == r
  {
  }

  lemma Nested(v: nat)
    ensures v / 0x1000 == v / 0x40 / 0x40
  {
    var q, r := v / 0x40 / 0x40, v / 0x40 % 0x40 * 0x40 + v % 0x40;
    assert v == 0x1000 * q + r && r < 0x1000;
    Page(v, q, r);
  }

  lemma Page(v: nat, q: nat, r: nat)
    requires v == 0x1000 * q + r && r < 0x1000
    ensures v / 0x1000 == q
  {
  }

  lemma NestedTwice(v: nat)
    ensures v / 0x4_0000 == v / 0x1000 / 0x40
  {
    var q, r := v / 0x1000 / 0x40, v / 0x1000 % 0x40 * 0x1000 + v % 0x1000;
    assert v == 0x4_0000 * q + r && r < 0x4_0000;
    Plane(v, q, r);
  }

  lemma Plane(v: nat, q: nat, r: nat)
    requires v == 0x4_0000 * q + r && r < 0x4_0000
    ensures v / 0x4_0000 == q
  {
  }

  lemma SixBits(v: nat)
    ensures v == v / 0x1000 * 0x1000 + v / 0x40 % 0x40 * 0x40 + v % 0x40
    ensures v == v / 0x4_0000 * 0x4_0000 + v / 0x1000 % 0x40 * 0x1000 + v / 0x40 % 0x40 * 0x40 + v % 0x40
  {
    Nested(v);
    NestedTwice(v);
    var a, b := v / 0x40, v / 0x1000;
    assert v == a * 0x40 + v % 0x40 && a == b * 0x40 + a % 0x40 && b == b / 0x40 * 0x40 + b % 0x40;
  }

  lemma Digits(high: nat, mid: nat, low: nat)
    requires mid < 0x40 && low < 0x40
    ensures var v := high * 0x1000 + mid * 0x40 + low;
      v / 0x1000 == high && v / 0x40 % 0x40 == mid && v % 0x40 == low && v / 0x40 == high * 0x40 + mid
  {
    var v := high * 0x1000 + mid * 0x40 + low;
    Quotient(v, high * 0x40 + mid, low);
    Quotient(high * 0x40 + mid, high, mid);
    Nested(v);
  }

  lemma OnlyThree(b: bytes)
    requires |b| > 0 && 0xE0 <= b[0] < 0xF0 && Three(b).Some?
    ensures EncodeChar(Three(b).value.0) == b[..3]
  {
    Digits(b[0] as int - 0xE0, Low(b[1]), Low(b[2]));
  }

  lemma OnlyFour(b: bytes)
    requires |b| > 0 && 0xF0 <= b[0] < 0xF5 && Four(b).Some?
    ensures EncodeChar(Four(b).value.0) == b[..4]
  {
    var high := (b[0] as int - 0xF0) * 0x40 + Low(b[1]);
    Digits(high, Low(b[2]), Low(b[3]));
    var v := Four(b).value.0 as int;
    assert v / 0x1000 == high && v / 0x4_0000 == high / 0x40;
  }

  lemma OnlyCharEncoding(b: bytes)
    requires DecodeOne(b).Some?
    ensures EncodeChar(DecodeOne(b).value.0) == b[..DecodeOne(b).value.1]
  {
    if 0xE0 <= b[0] < 0xF0 {
      hide EncodeChar;
      OnlyThree(b);
    } else if 0xF0 <= b[0] {
      hide EncodeChar;
      OnlyFour(b);
    }
  }

  lemma DecodeStep(b: bytes, c: char, n: nat, rest: bytes)
    requires DecodeOne(b) == Some((c, n)) && rest == b[n..]
    ensures Decode(b) ==
      match Decode(rest)
      case None => None
      case Some(t) => Some([c] + t)
  {
    hide DecodeOne;
  }

  lemma NoText(s: string, rest: bytes)
    requires s == ""
    ensures Encode(s) + rest == rest && forall t: string :: s + t == t
  {
  }

  lemma EncodeStep(s: string, rest: bytes)
    requires s != ""
    ensures Encode(s) + rest == EncodeChar(s[0]) + (Encode(s[1..]) + rest)
  {
    hide EncodeChar;
  }

  lemma Regroup(s: string, t: string)
    requires s != ""
    ensures [s[0]] + (s[1..] + t) == s + t
  {
  }

  lemma DropFront(a: bytes, b: bytes)
    ensures (a + b)[|a|..] == b
  {
  }

  /** Text, then any bytes: the text is read off and the rest stands alone. */
  lemma {:induction false} DecodeAfter(s: string, rest: bytes)
    ensures Decode(Encode(s) + rest) ==
      match Decode(rest)
      case None => None
      case Some(t) => Some(s + t)
  {
    hide *;
    if s == "" {
      NoText(s, rest);
    } else {
      var front, more := EncodeChar(s[0]), Encode(s[1..]) + rest;
      DecodeAfter(s[1..], rest);
      CharReadsBack(s[0], more);
      EncodeStep(s, rest);
      DropFront(front, more);
      DecodeStep(front + more, s[0], |front|, more);
      if Decode(rest).Some? {
        Regroup(s, Decode(rest).value);
      }
    }
  }

  lemma RoundTrip(s: string)
    ensures Decode(Encode(s)) == Some(s)
  {
    DecodeAfter(s, []);
    assert Encode(s) + [] == Encode(s) && s + "" == s;
  }

  lemma EncodeCons(c: char, s: string)
    ensures Encode([c] + s) == EncodeChar(c) + Encode(s)
  {
    assert ([c] + s)[1..] == s;
  }

  /** No other bytes decode to the text. */
  lemma {:induction false} OnlyEncoding(b: bytes)
    requires Decode(b).Some?
    ensures Encode(Decode(b).value) == b
    decreases |b|
  {
    if b != [] {
      var (c, n) := DecodeOne(b).value;
      assert Decode(b[n..]).Some?;
      OnlyEncoding(b[n..]);
      hide *;
      DecodeStep(b, c, n, b[n..]);
      OnlyCharEncoding(b);
      EncodeCons(c, Decode(b[n..]).value);
      FrontAndBack(b, n);
    }
  }

  lemma FrontAndBack(b: bytes, n: nat)
    requires n <= |b|
    ensures b == b[..n] + b[n..]
  {
  }

  lemma {:induction false} EncodeAppend(s: string, t: string)
    ensures Encode(s + t) == Encode(s) + Encode(t)
  {
    if s == "" {
      assert s + t == t && Encode(s) + Encode(t) == Encode(t);
    } else {
      hide *;
      EncodeAppend(s[1..], t);
      Regroup(s, t);
      EncodeCons(s[0], s[1..] + t);
      EncodeStep(s, Encode(t));
    }
  }

  // ---------------------------------------------------------------------
  // Bytes arriving in chunks
  // ---------------------------------------------------------------------

  function Joined(chunks: seq<bytes>): bytes {
    if chunks == [] then [] else Joined(chunks[..|chunks| - 1]) + chunks[|chunks| - 1]
  }

  ghost predicate EachDecodes(chunks: seq<bytes>) {
    forall i :: 0 <= i < |chunks| ==> Decode(chunks[i]).Some?
  }

  /** Text read so far, then one chunk that decodes by itself. */
  lemma DecodeNext(before: bytes, chunk: bytes)
    requires Decode(before).Some? && Decode(chunk).Some?
    ensures Decode(before + chunk) == Some(Decode(before).value + Decode(chunk).value)
  {
    OnlyEncoding(before);
    DecodeAfter(Decode(before).value, chunk);
  }

  lemma {:induction false} EachThenAll(chunks: seq<bytes>)
    requires EachDecodes(chunks)
    ensures Decode(Joined(chunks)).Some?
  {
    if chunks != [] {
      EachThenAll(chunks[..|chunks| - 1]);
      DecodeNext(Joined(chunks[..|chunks| - 1]), chunks[|chunks| - 1]);
    }
  }

  lemma {:induction false} JoinedSplit(chunks: seq<bytes>, i: nat)
    requires i <= |chunks|
    ensures Joined(chunks) == Joined(chunks[..i]) + Joined(chunks[i..])
  {
    if i == |chunks| {
      assert chunks[..i] == chunks;
    } else {
      var init := chunks[..|chunks| - 1];
      JoinedSplit(init, i);
      assert init[..i] == chunks[..i] && chunks[i..][..|chunks| - i - 1] == init[i..];
      assert Joined(chunks[..i]) + (Joined(init[i..]) + chunks[|chunks| - 1])
        == Joined(chunks[..i]) + Joined(init[i..]) + chunks[|chunks| - 1];
    }
  }

  /** Byte position `p` is the start of a character of `s`, or its end. */
  ghost predicate Boundary(s: string, p: nat) {
    exists n :: 0 <= n <= |s| && |Encode(s[..n])| == p
  }

  lemma PrefixBoundary(s: string, t: string)
    requires t <= s
    ensures Boundary(s, |Encode(t)|)
  {
    assert s[..|t|] == t;
  }

  lemma EncodeSlices(s: string, n: nat, m: nat)
    requires n <= m <= |s|
    ensures Encode(s[..m]) == Encode(s[..n]) + Encode(s[n..m])
  {
    assert s[..m] == s[..n] + s[n..m];
    EncodeAppend(s[..n], s[n..m]);
  }

  lemma BetweenBoundaries(s: string, before: bytes, chunk: bytes, after: bytes)
    requires Encode(s) == before + chunk + after
    requires Boundary(s, |before|) && Boundary(s, |before + chunk|)
    ensures Decode(chunk).Some?
  {
    var n :| 0 <= n <= |s| && |Encode(s[..n])| == |before|;
    var m :| 0 <= m <= |s| && |Encode(s[..m])| == |before + chunk|;
    EncodeSlices(s, n, |s|);
    EncodeSlices(s, m, |s|);
    assert s[..|s|] == s;
    assert Encode(s)[..|before|] == Encode(s[..n]) == before;
    assert Encode(s)[..|before + chunk|] == Encode(s[..m]) == before + chunk;
    if n <= m {
      EncodeSlices(s, n, m);
      assert chunk == (before + chunk)[|before|..] == Encode(s[n..m]);
      RoundTrip(s[n..m]);
    } else {
      EncodeSlices(s, m, n);
      assert chunk == [];
    }
  }

  lemma CutsAreBoundaries(chunks: seq<bytes>, s: string, i: nat)
    requires Joined(chunks) == Encode(s) && EachDecodes(chunks) && i <= |chunks|
    ensures Boundary(s, |Joined(chunks[..i])|)
  {
    var a, b := Joined(chunks[..i]), Joined(chunks[i..]);
    JoinedSplit(chunks, i);
    EachThenAll(chunks[..i]);
    EachThenAll(chunks[i..]);
    RoundTrip(s);
    hide Joined;
    hide Decode;
    hide Encode;
    DecodeNext(a, b);
    OnlyEncoding(a);
    PrefixBoundary(s, Decode(a).value);
  }

  lemma ChunkBetween(chunks: seq<bytes>, s: string, i: nat)
    requires Joined(chunks) == Encode(s) && i < |chunks|
    requires Boundary(s, |Joined(chunks[..i])|) && Boundary(s, |Joined(chunks[..i + 1])|)
    ensures Decode(chunks[i]).Some?
  {
    JoinedSplit(chunks, i + 1);
    JoinedTo(chunks, i);
    hide *;
    BetweenBoundaries(s, Joined(chunks[..i]), chunks[i], Joined(chunks[i + 1..]));
  }

  lemma JoinedTo(chunks: seq<bytes>, i: nat)
    requires i < |chunks|
    ensures Joined(chunks[..i + 1]) == Joined(chunks[..i]) + chunks[i]
  {
    assert chunks[..i + 1][..i] == chunks[..i];
  }

  /** Valid text, cut anywhere: every chunk decodes by itself exactly when no cut falls
      inside a character. */
  lemma EachDecodesExactlyWhen(chunks: seq<bytes>, s: string)
    requires Joined(chunks) == Encode(s)
    ensures EachDecodes(chunks) <==> forall i :: 0 <= i <= |chunks| ==> Boundary(s, |Joined(chunks[..i])|)
  {
    hide Decode;
    hide Boundary;
    if EachDecodes(chunks) {
      forall i | 0 <= i <= |chunks| ensures Boundary(s, |Joined(chunks[..i])|) {
        CutsAreBoundaries(chunks, s, i);
      }
    }
    if forall i :: 0 <= i <= |chunks| ==> Boundary(s, |Joined(chunks[..i])|) {
      forall i | 0 <= i < |chunks| ensures Decode(chunks[i]).Some? {
        ChunkBetween(chunks, s, i);
      }
    }
  }
}
