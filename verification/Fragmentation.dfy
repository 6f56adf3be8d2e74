/** What a reader answers must not depend on how the network cuts the stream, and how far that holds. */
module Fragmentation {
  import opened Results
  import opened Decimal
  import opened Text
  import opened HttpHeader
  import opened PacketReader

  function Join(pieces: seq<string>): string {
    if pieces == [] then "" else Join(pieces[..|pieces| - 1]) + pieces[|pieces| - 1]
  }

  /** `pieces` cuts `stream` into fragments that are not empty. */
  predicate Cuts(pieces: seq<string>, stream: string) {
    Join(pieces) == stream && forall i :: 0 <= i < |pieces| ==> pieces[i] != ""
  }

  function Feed(r: Reader, kind: Kind, pieces: seq<string>): (Reader, seq<Answer>)
    decreases |pieces|
  {
    if pieces == [] then
      (r, [])
    else
      var (r1, answers) := Feed(r, kind, pieces[..|pieces| - 1]);
      var (r2, answer) := Read(r1, kind, pieces[|pieces| - 1], false);
      (r2, answers + [answer])
  }

  /** Nothing until the last fragment, then the packet. */
  predicate OnlyAtTheEnd(answers: seq<Answer>, p: Packet) {
    && answers != []
    && (forall i :: 0 <= i < |answers| - 1 ==> answers[i] == Ok(None))
    && answers[|answers| - 1] == Ok(Some(p))
  }

  /** However the stream is cut, the packet comes with the last fragment. */
  ghost predicate Independent(level: Level, max: Unsigned, kind: Kind, stream: string, p: Packet) {
    forall pieces :: Cuts(pieces, stream) ==> OnlyAtTheEnd(Feed(Fresh(level, max), kind, pieces).1, p)
  }

  /** The stream is shorter than the limit, if there is one. */
  predicate WithinLimit(max: Unsigned, stream: string) {
    max == 0 || |stream| < max
  }

  // ----- The streams for which it holds -----

  /** The header text, the header and the body of a stream that is exactly one packet. */
  datatype Frame = Frame(end: nat, gap: nat, header: Header)

  function BodyStart(f: Frame): nat {
    f.end + f.gap
  }

  /** The stream is one header, its terminator, and as many bytes as the header says. */
  predicate Framed(level: Level, kind: Kind, stream: string, f: Frame) {
    && HeaderEnd(stream) == Some((f.end, f.gap))
    && BodyStart(f) <= |stream|
    && Build(kind, level, stream[..f.end]) == Ok(f.header)
    && ContentLength(f.header) == Ok(|stream| - BodyStart(f))
  }

  /** No pair of bare line feeds ends before the CRLFCRLF that ends the header. */
  predicate NoEarlyBareEnd(stream: string) {
    match Find(stream, END)
    case None => true
    case Some(i) => i + 4 <= |stream| && Find(stream[..i + 4], BARE_END).None?
  }

  /** Before the end of the header there is no terminator in what has arrived; afterwards it is the
      header's. */
  lemma HeaderEndOfPrefix(stream: string, end: nat, gap: nat, n: nat)
    requires HeaderEnd(stream) == Some((end, gap)) && NoEarlyBareEnd(stream)
    requires n <= |stream|
    ensures HeaderEnd(stream[..n]) == if n >= end + gap then Some((end, gap)) else None
  {
    FindInPrefix(stream, END, n);
    FindInPrefix(stream, BARE_END, n);
    if Find(stream, END).Some? {
      FindInPrefix(stream, BARE_END, end + 4);
    }
  }

  /** A fragment that keeps within the limit is counted and not rejected. */
  lemma SmallRead(r: Reader, s: string)
    requires r.maxSize == 0 || r.totalSize + |s| < r.maxSize
    requires r.header.Some? ==> ContentLength(r.header.value).Ok?
    requires r.maxSize > 0 && r.header.Some? ==>
               ContentLength(r.header.value).value + |r.headerCache| < r.maxSize
    ensures CheckSize(r, |s| % UNSIGNED_MODULUS) ==
            (if r.maxSize == 0 then r else r.(totalSize := r.totalSize + |s|), None)
  {
    hide ContentLength;
  }

  /** The size check changes the counter only. */
  lemma AnyRead(r: Reader, size: nat)
    requires r.header.Some? ==> ContentLength(r.header.value).Ok?
    ensures CheckSize(r, size).0 == r.(totalSize := CheckSize(r, size).0.totalSize)
    ensures CheckSize(r, size).1 == None || CheckSize(r, size).1 == Some(RequestTooLarge)
  {
    hide ContentLength;
  }

  /** The reader after the first `n` bytes of a framed stream. */
  function Midway(level: Level, max: Unsigned, stream: string, f: Frame, n: nat): Reader
    requires BodyStart(f) <= |stream| && n <= |stream| && WithinLimit(max, stream)
  {
    var counted := if max == 0 then 0 else n;
    if n < BodyStart(f) then
      Fresh(level, max).(headerCache := stream[..n], totalSize := counted)
    else
      Reader(stream[..f.end], stream[BodyStart(f)..n], Some(f.header), level, n == |stream|, max, counted)
  }

  function FramePacket(stream: string, f: Frame): Packet
    requires BodyStart(f) <= |stream|
  {
    MakePacket(f.header, stream[BodyStart(f)..])
  }

  /** A fragment that comes before the header is complete. */
  lemma ReadInHeader(level: Level, max: Unsigned, kind: Kind, stream: string, f: Frame, n: nat, s: string)
    requires Framed(level, kind, stream, f) && NoEarlyBareEnd(stream) && WithinLimit(max, stream)
    requires n < BodyStart(f) && s != "" && n + |s| <= |stream| && stream[n..n + |s|] == s
    ensures Read(Midway(level, max, stream, f, n), kind, s, false) ==
            (Midway(level, max, stream, f, n + |s|),
             Ok(if n + |s| == |stream| then Some(FramePacket(stream, f)) else None))
  {
    hide HeaderEnd, Build, ContentLength, MakePacket, NoEarlyBareEnd, CheckSize;
    var m, b := n + |s|, BodyStart(f);
    SmallRead(Midway(level, max, stream, f, n), s);
    assert Midway(level, max, stream, f, n).headerCache + s == stream[..m];
    HeaderEndOfPrefix(stream, f.end, f.gap, m);
    if m >= b {
      assert stream[..m][..f.end] == stream[..f.end];
      assert "" + stream[..m][b..] == stream[b..m];
      assert stream[b..m][..m - b] == stream[b..m];
      assert m == |stream| ==> stream[b..m] == stream[b..];
    }
  }

  /** A fragment that comes afterwards. */
  lemma ReadInBody(level: Level, max: Unsigned, kind: Kind, stream: string, f: Frame, n: nat, s: string)
    requires Framed(level, kind, stream, f) && WithinLimit(max, stream)
    requires BodyStart(f) <= n < |stream| && n + |s| <= |stream| && stream[n..n + |s|] == s
    ensures Read(Midway(level, max, stream, f, n), kind, s, false) ==
            (Midway(level, max, stream, f, n + |s|),
             Ok(if n + |s| == |stream| then Some(FramePacket(stream, f)) else None))
  {
    hide HeaderEnd, Build, ContentLength, MakePacket, CheckSize;
    var m, b := n + |s|, BodyStart(f);
    SmallRead(Midway(level, max, stream, f, n), s);
    assert Midway(level, max, stream, f, n).contentCache + s == stream[b..m];
    assert stream[b..m][..m - b] == stream[b..m];
    assert m == |stream| ==> stream[b..m] == stream[b..];
  }

  /** A read for the header only answers as soon as the header is complete, with no content, whatever part
      of the body has come with it. */
  lemma HeaderOnlyRead(level: Level, max: Unsigned, kind: Kind, stream: string, f: Frame, n: nat, s: string)
    requires Framed(level, kind, stream, f) && NoEarlyBareEnd(stream) && WithinLimit(max, stream)
    requires n < BodyStart(f) && s != "" && n + |s| <= |stream| && stream[n..n + |s|] == s
    ensures Read(Midway(level, max, stream, f, n), kind, s, true).1 ==
            Ok(if n + |s| >= BodyStart(f) then Some(MakePacket(f.header, "")) else None)
  {
    hide HeaderEnd, Build, ContentLength, MakePacket, NoEarlyBareEnd, CheckSize;
    var m := n + |s|;
    SmallRead(Midway(level, max, stream, f, n), s);
    assert Midway(level, max, stream, f, n).headerCache + s == stream[..m];
    HeaderEndOfPrefix(stream, f.end, f.gap, m);
    if m >= BodyStart(f) {
      assert stream[..m][..f.end] == stream[..f.end];
    }
  }

  lemma {:induction false} FeedFramed(
      level: Level, max: Unsigned, kind: Kind, stream: string, f: Frame, pieces: seq<string>)
    requires Framed(level, kind, stream, f) && NoEarlyBareEnd(stream) && WithinLimit(max, stream)
    requires forall i :: 0 <= i < |pieces| ==> pieces[i] != ""
    requires |Join(pieces)| <= |stream| && stream[..|Join(pieces)|] == Join(pieces)
    ensures
      var (r, answers) := Feed(Fresh(level, max), kind, pieces);
      && r == Midway(level, max, stream, f, |Join(pieces)|)
      && |answers| == |pieces|
      && (forall i :: 0 <= i < |answers| - 1 ==> answers[i] == Ok(None))
      && (pieces != [] ==>
            answers[|answers| - 1] == Ok(if |Join(pieces)| == |stream| then Some(FramePacket(stream, f)) else None))
    decreases |pieces|
  {
    hide Framed, NoEarlyBareEnd, FramePacket, Read;
    if pieces != [] {
      var front, s := pieces[..|pieces| - 1], pieces[|pieces| - 1];
      var n := |Join(front)|;
      assert stream[..n + |s|][..n] == Join(front) && stream[n..n + |s|] == s;
      FeedFramed(level, max, kind, stream, f, front);
      if n < BodyStart(f) {
        ReadInHeader(level, max, kind, stream, f, n, s);
      } else {
        FramedFits(level, kind, stream, f);
        ReadInBody(level, max, kind, stream, f, n, s);
      }
    } else {
      StartMidway(level, max, kind, stream, f);
    }
  }

  lemma FramedFits(level: Level, kind: Kind, stream: string, f: Frame)
    requires Framed(level, kind, stream, f)
    ensures BodyStart(f) <= |stream|
  {
  }

  lemma StartMidway(level: Level, max: Unsigned, kind: Kind, stream: string, f: Frame)
    requires Framed(level, kind, stream, f) && WithinLimit(max, stream)
    ensures Midway(level, max, stream, f, 0) == Fresh(level, max)
  {
    hide HeaderEnd, Build, ContentLength;
    HeaderEndPositive(stream);
  }

  lemma HeaderEndPositive(stream: string)
    ensures HeaderEnd(stream).Some? ==> HeaderEnd(stream).value.1 >= 2
  {
  }

  /** One packet's bytes, in any number of fragments, give nothing before the last and then the packet. */
  lemma FramedIsIndependent(level: Level, max: Unsigned, kind: Kind, stream: string, f: Frame)
    requires Framed(level, kind, stream, f) && NoEarlyBareEnd(stream) && WithinLimit(max, stream)
    ensures Independent(level, max, kind, stream, FramePacket(stream, f))
  {
    hide HeaderEnd, Build, ContentLength, NoEarlyBareEnd, MakePacket, Feed, Fresh;
    forall pieces | Cuts(pieces, stream)
      ensures OnlyAtTheEnd(Feed(Fresh(level, max), kind, pieces).1, FramePacket(stream, f))
    {
      assert stream[..|stream|] == stream;
      FeedFramed(level, max, kind, stream, f, pieces);
      FramedNotEmpty(level, kind, stream, f);
    }
  }

  lemma FramedNotEmpty(level: Level, kind: Kind, stream: string, f: Frame)
    requires Framed(level, kind, stream, f)
    ensures stream != ""
  {
    HeaderEndPositive(stream);
  }

  // ----- The streams for which it fails -----

  /** The answer of a new reader to its first fragment. */
  function FirstAnswer(level: Level, kind: Kind, s: string): Answer
    requires s != ""
  {
    match HeaderEnd(s)
    case None => Ok(None)
    case Some((i, len)) =>
      var h :- Build(kind, level, s[..i]);
      var n :- ContentLength(h);
      var content := s[i + len..];
      if |content| >= n then Ok(Some(MakePacket(h, content[..n]))) else Ok(None)
  }

  lemma FirstRead(level: Level, max: Unsigned, kind: Kind, s: string)
    requires s != "" && WithinLimit(max, s)
    ensures Read(Fresh(level, max), kind, s, false).1 == FirstAnswer(level, kind, s)
  {
    hide HeaderEnd, Build, ContentLength, MakePacket, CheckSize;
    SmallRead(Fresh(level, max), s);
    assert "" + s == s;
    if HeaderEnd(s).Some? {
      var (i, len) := HeaderEnd(s).value;
      assert "" + s[i + len..] == s[i + len..];
    }
  }

  /** If a first fragment completes a header and no more, the second one is all content, unless it is
      rejected for its size. */
  lemma SecondRead(level: Level, max: Unsigned, kind: Kind, a: string, b: string, i: nat, len: nat, h: Header, n: nat)
    requires HeaderEnd(a) == Some((i, len)) && i + len == |a| && a != "" && WithinLimit(max, a)
    requires Build(kind, level, a[..i]) == Ok(h) && ContentLength(h) == Ok(n) && n > 0
    ensures
      var answer := Read(Read(Fresh(level, max), kind, a, false).0, kind, b, false).1;
      || answer == Err(RequestTooLarge)
      || answer == Ok(if |b| >= n then Some(MakePacket(h, b[..n])) else None)
  {
    hide HeaderEnd, Build, ContentLength, MakePacket, CheckSize;
    SmallRead(Fresh(level, max), a);
    assert "" + a == a;
    assert "" + a[i + len..] == "";
    AnyRead(Read(Fresh(level, max), kind, a, false).0, |b| % UNSIGNED_MODULUS);
    assert "" + b == b;
  }

  lemma FeedSnoc(r: Reader, kind: Kind, pieces: seq<string>, c: string)
    ensures
      var (r1, answers) := Feed(r, kind, pieces);
      var (r2, x) := Read(r1, kind, c, false);
      Feed(r, kind, pieces + [c]) == (r2, answers + [x])
    ensures Join(pieces + [c]) == Join(pieces) + c
  {
    hide Read;
    assert (pieces + [c])[..|pieces|] == pieces;
  }

  lemma FeedOne(r: Reader, kind: Kind, a: string)
    ensures
      var (r1, x) := Read(r, kind, a, false);
      Feed(r, kind, [a]) == (r1, [x])
    ensures Join([a]) == a
  {
    hide Read;
    FeedSnoc(r, kind, [], a);
    var (r1, x) := Read(r, kind, a, false);
    assert [] + [a] == [a] && "" + a == a && [] + [x] == [x];
  }

  lemma FeedTwo(r: Reader, kind: Kind, a: string, b: string)
    ensures
      var (r1, x) := Read(r, kind, a, false);
      var (r2, y) := Read(r1, kind, b, false);
      Feed(r, kind, [a, b]) == (r2, [x, y])
    ensures Join([a, b]) == a + b
  {
    hide Read, Feed, Join;
    FeedOne(r, kind, a);
    FeedSnoc(r, kind, [a], b);
    var (r1, x) := Read(r, kind, a, false);
    var (r2, y) := Read(r1, kind, b, false);
    assert [a] + [b] == [a, b] && [x] + [y] == [x, y];
  }

  /** In an independent stream no proper prefix is answered. */
  lemma PrefixSilent(level: Level, max: Unsigned, kind: Kind, stream: string, p: Packet, n: nat)
    requires Independent(level, max, kind, stream, p) && 0 < n < |stream| && WithinLimit(max, stream)
    ensures FirstAnswer(level, kind, stream[..n]) == Ok(None)
  {
    hide Read, Feed, FirstAnswer;
    var a, b := stream[..n], stream[n..];
    assert a + b == stream;
    FeedTwo(Fresh(level, max), kind, a, b);
    assert Cuts([a, b], stream);
    FirstRead(level, max, kind, a);
    assert Feed(Fresh(level, max), kind, [a, b]).1[0] == Ok(None);
  }

  /** Read at once, an independent stream gives its packet, and it has no byte to spare. */
  lemma IndependentIsFramed(level: Level, max: Unsigned, kind: Kind, stream: string, p: Packet) returns (f: Frame)
    requires stream != "" && Independent(level, max, kind, stream, p) && WithinLimit(max, stream)
    ensures Framed(level, kind, stream, f) && p == FramePacket(stream, f)
  {
    hide Read, Feed, Build, ContentLength, HeaderEnd, MakePacket;
    FeedOne(Fresh(level, max), kind, stream);
    assert Cuts([stream], stream);
    FirstRead(level, max, kind, stream);
    assert FirstAnswer(level, kind, stream) == Ok(Some(p));
    var (i, len) := HeaderEnd(stream).value;
    var h := Build(kind, level, stream[..i]).value;
    var n := ContentLength(h).value;
    f := Frame(i, len, h);
    if n < |stream| - (i + len) {
      HeaderEndPositive(stream);
      SpareByte(level, kind, stream, f, n);
      PrefixSilent(level, max, kind, stream, p, i + len + n);
    }
    assert stream[i + len..][..|stream| - (i + len)] == stream[i + len..];
  }

  /** A stream with a byte to spare is answered before that byte arrives. */
  lemma SpareByte(level: Level, kind: Kind, stream: string, f: Frame, n: nat)
    requires HeaderEnd(stream) == Some((f.end, f.gap)) && 0 < BodyStart(f) <= |stream|
    requires Build(kind, level, stream[..f.end]) == Ok(f.header)
    requires ContentLength(f.header) == Ok(n) && n < |stream| - BodyStart(f)
    ensures FirstAnswer(level, kind, stream[..BodyStart(f) + n]).Ok?
    ensures FirstAnswer(level, kind, stream[..BodyStart(f) + n]).value.Some?
  {
    hide HeaderEnd, Build, ContentLength, MakePacket;
    var cut := BodyStart(f) + n;
    HeaderEndKept(stream, cut);
    assert stream[..cut][..f.end] == stream[..f.end];
  }

  /** A prefix that reaches past the header of the whole stream has the same header. */
  lemma HeaderEndKept(stream: string, n: nat)
    requires HeaderEnd(stream).Some? && n <= |stream|
    requires n >= HeaderEnd(stream).value.0 + HeaderEnd(stream).value.1
    ensures HeaderEnd(stream[..n]) == HeaderEnd(stream)
  {
    FindInPrefix(stream, END, n);
    FindInPrefix(stream, BARE_END, n);
  }

  /** Where the early pair of line feeds stands. */
  lemma EarlyBareEnd(stream: string) returns (j: nat)
    requires !NoEarlyBareEnd(stream)
    ensures Find(stream, END).Some? && j + 2 < Find(stream, END).value + 4 <= |stream|
    ensures HeaderEnd(stream[..j + 2]) == Some((j, 2))
  {
    var i := Find(stream, END).value;
    assert At(stream, END, i);
    j := Find(stream[..i + 4], BARE_END).value;
    assert At(stream[..i + 4], BARE_END, j);
    CharOfOccurrence(stream, END, i, 2);
    CharOfOccurrence(stream[..i + 4], BARE_END, j, 0);
    assert stream[..i + 4][..j + 2] == stream[..j + 2];
    FindInPrefix(stream[..i + 4], BARE_END, j + 2);
    FindInPrefix(stream, END, j + 2);
  }

  /** With such a pair the way the stream is cut decides which header is read: some cut does not give the
      packet of the whole stream with its last fragment. */
  lemma EarlyBareEndSplits(level: Level, max: Unsigned, kind: Kind, stream: string, f: Frame)
    returns (pieces: seq<string>)
    requires Framed(level, kind, stream, f) && !NoEarlyBareEnd(stream) && WithinLimit(max, stream)
    ensures Cuts(pieces, stream)
    ensures !OnlyAtTheEnd(Feed(Fresh(level, max), kind, pieces).1, FramePacket(stream, f))
  {
    hide Read, Feed, Build, ContentLength;
    var j := EarlyBareEnd(stream);
    var a, b := stream[..j + 2], stream[j + 2..];
    assert |stream| - BodyStart(f) < |b| && a + b == stream && a[j + 2..] == "";
    hide HeaderEnd, NoEarlyBareEnd;
    var r := Fresh(level, max);
    pieces := [a, b];
    FeedTwo(r, kind, a, b);
    FirstRead(level, max, kind, a);
    assert Feed(r, kind, pieces).1[0] == FirstAnswer(level, kind, a);
    if FirstAnswer(level, kind, a) == Ok(None) {
      var h := Build(kind, level, a[..j]).value;
      var n := ContentLength(h).value;
      if n < |b| {
        pieces := AnsweredTooSoon(level, max, kind, a, b, j, h, n, FramePacket(stream, f));
      } else {
        SecondRead(level, max, kind, a, b, j, 2, h, n);
        assert Feed(r, kind, pieces).1[1] != Ok(Some(FramePacket(stream, f)));
      }
    }
  }

  lemma AnsweredTooSoon(
      level: Level, max: Unsigned, kind: Kind, a: string, b: string, j: nat, h: Header, n: nat, p: Packet)
    returns (pieces: seq<string>)
    requires HeaderEnd(a) == Some((j, 2)) && j + 2 == |a| && WithinLimit(max, a)
    requires Build(kind, level, a[..j]) == Ok(h) && ContentLength(h) == Ok(n) && 0 < n < |b|
    ensures Cuts(pieces, a + b)
    ensures !OnlyAtTheEnd(Feed(Fresh(level, max), kind, pieces).1, p)
  {
    hide Read, Feed, Build, ContentLength, HeaderEnd, MakePacket;
    var r := Fresh(level, max);
    var b1, b2 := b[..n], b[n..];
    SecondRead(level, max, kind, a, b1, j, 2, h, n);
    FeedTwo(r, kind, a, b1);
    FeedSnoc(r, kind, [a, b1], b2);
    pieces := [a, b1] + [b2];
    assert a + b1 + b2 == a + b;
    var answers := Feed(r, kind, pieces).1;
    assert |answers| == 3 && answers[1] == Feed(r, kind, [a, b1]).1[1] != Ok(None);
  }

  /** A stream as long as the limit, or longer, is rejected when its first fragment is as long. */
  lemma OverLimitRejected(level: Level, max: Unsigned, kind: Kind, stream: string, p: Packet)
    requires !WithinLimit(max, stream)
    ensures !Independent(level, max, kind, stream, p)
  {
    hide Read, Feed;
    var r, a, b := Fresh(level, max), stream[..max], stream[max..];
    RejectedAtOnce(level, max, kind, a);
    if b == "" {
      assert a == stream;
      FeedOne(r, kind, a);
      assert Cuts([a], stream);
    } else {
      assert a + b == stream;
      FeedTwo(r, kind, a, b);
      assert Cuts([a, b], stream);
      assert Feed(r, kind, [a, b]).1[0] != Ok(None);
    }
  }

  lemma RejectedAtOnce(level: Level, max: Unsigned, kind: Kind, s: string)
    requires |s| == max > 0
    ensures Read(Fresh(level, max), kind, s, false).1 == Err(RequestTooLarge)
  {
    hide Absorb, Deliver, ContentLength;
    assert |s| % UNSIGNED_MODULUS == |s|;
  }

  /** Under any limit, or none, a stream gives one packet, with its last fragment, however it is cut, exactly
      if it is within the limit and is one framed packet in which no pair of bare line feeds comes before
      the end of the header. */
  lemma IndependentExactly(level: Level, max: Unsigned, kind: Kind, stream: string, p: Packet)
    requires stream != ""
    ensures Independent(level, max, kind, stream, p) <==>
            WithinLimit(max, stream)
            && NoEarlyBareEnd(stream)
            && exists f :: Framed(level, kind, stream, f) && p == FramePacket(stream, f)
  {
    hide HeaderEnd, Build, ContentLength, MakePacket, NoEarlyBareEnd, Feed, Cuts, OnlyAtTheEnd;
    if !WithinLimit(max, stream) {
      OverLimitRejected(level, max, kind, stream, p);
    } else if Independent(level, max, kind, stream, p) {
      var f := IndependentIsFramed(level, max, kind, stream, p);
      if !NoEarlyBareEnd(stream) {
        var pieces := EarlyBareEndSplits(level, max, kind, stream, f);
      }
    } else if NoEarlyBareEnd(stream) {
      forall f | Framed(level, kind, stream, f) && p == FramePacket(stream, f)
        ensures false
      {
        FramedIsIndependent(level, max, kind, stream, f);
      }
    }
  }

  // ----- A reader that is used again -----

  /** After a packet a reader answers as a new one does. */
  lemma ReusedIsFresh(r: Reader, kind: Kind, s: string, hdrOnly: bool)
    requires r.constructed
    ensures Read(r, kind, s, hdrOnly) == Read(Fresh(r.level, r.maxSize), kind, s, hdrOnly)
  {
  }

  function JoinAll(cuts: seq<seq<string>>): seq<string> {
    if cuts == [] then [] else JoinAll(cuts[..|cuts| - 1]) + cuts[|cuts| - 1]
  }

  function Silence(n: nat): seq<Answer> {
    seq(n, _ => Ok(None))
  }

  /** The answers to packets that arrive one after another, each cut in its own way. */
  function Expected(frames: seq<Frame>, streams: seq<string>, cuts: seq<seq<string>>): seq<Answer>
    requires |frames| == |streams| == |cuts|
    requires forall i :: 0 <= i < |frames| ==> BodyStart(frames[i]) <= |streams[i]| && cuts[i] != []
  {
    if frames == [] then
      []
    else
      var n := |frames| - 1;
      Expected(frames[..n], streams[..n], cuts[..n]) + Silence(|cuts[n]| - 1)
      + [Ok(Some(FramePacket(streams[n], frames[n])))]
  }

  lemma {:induction false} FeedFrom(r: Reader, kind: Kind, earlier: seq<string>, later: seq<string>)
    ensures
      var (r1, xs) := Feed(r, kind, earlier);
      var (r2, ys) := Feed(r1, kind, later);
      Feed(r, kind, earlier + later) == (r2, xs + ys)
    decreases |later|
  {
    hide Read, Feed;
    var (r1, xs) := Feed(r, kind, earlier);
    if later == [] {
      FeedNone(r1, kind);
      assert earlier + later == earlier && xs + [] == xs;
    } else {
      var front, c := later[..|later| - 1], later[|later| - 1];
      assert later == front + [c] && earlier + later == earlier + front + [c];
      FeedFrom(r, kind, earlier, front);
      FeedSnoc(r, kind, earlier + front, c);
      FeedSnoc(r1, kind, front, c);
      var (r2, ys) := Feed(r1, kind, front);
      JoinAnswers(xs, ys, [Read(r2, kind, c, false).1]);
    }
  }

  lemma {:induction false} FeedReused(r: Reader, kind: Kind, pieces: seq<string>)
    requires r.constructed && pieces != []
    ensures Feed(r, kind, pieces) == Feed(Fresh(r.level, r.maxSize), kind, pieces)
    decreases |pieces|
  {
    hide Read, Fresh;
    var front, c := pieces[..|pieces| - 1], pieces[|pieces| - 1];
    if front == [] {
      ReusedIsFresh(r, kind, c, false);
    } else {
      FeedReused(r, kind, front);
    }
  }

  /** A reader before the first fragment of a packet. */
  predicate Ready(r: Reader, level: Level, max: Unsigned) {
    r == Fresh(level, max) || (r.constructed && r.level == level && r.maxSize == max)
  }

  ghost predicate AllFramed(
      level: Level, max: Unsigned, kind: Kind, frames: seq<Frame>, streams: seq<string>, cuts: seq<seq<string>>) {
    && |frames| == |streams| == |cuts|
    && forall i :: 0 <= i < |frames| ==>
         && Framed(level, kind, streams[i], frames[i]) && NoEarlyBareEnd(streams[i]) && WithinLimit(max, streams[i])
         && Cuts(cuts[i], streams[i])
         && BodyStart(frames[i]) <= |streams[i]| && cuts[i] != []
  }

  lemma NextPacket(
      r: Reader, level: Level, max: Unsigned, kind: Kind, f: Frame, stream: string, pieces: seq<string>)
    requires Ready(r, level, max) && pieces != [] && BodyStart(f) <= |stream|
    requires Framed(level, kind, stream, f) && NoEarlyBareEnd(stream) && WithinLimit(max, stream)
    requires Cuts(pieces, stream)
    ensures
      var (r', answers) := Feed(r, kind, pieces);
      Ready(r', level, max) && answers == Silence(|pieces| - 1) + [Ok(Some(FramePacket(stream, f)))]
  {
    hide Framed, NoEarlyBareEnd, Feed, FramePacket, Cuts;
    OnePacket(level, max, kind, f, stream, pieces);
    if r.constructed {
      FeedReused(r, kind, pieces);
    }
  }

  /** One reader serves any number of packets, each cut in its own way, as if each had its own reader. */
  lemma {:induction false} PacketsInSequence(
      r: Reader, level: Level, max: Unsigned, kind: Kind,
      frames: seq<Frame>, streams: seq<string>, cuts: seq<seq<string>>)
    requires Ready(r, level, max) && AllFramed(level, max, kind, frames, streams, cuts)
    ensures
      var (r', answers) := Feed(r, kind, JoinAll(cuts));
      Ready(r', level, max) && answers == Expected(frames, streams, cuts)
    decreases |frames|
  {
    hide Read, Framed, NoEarlyBareEnd, Feed, FramePacket, Cuts, Ready, Silence;
    if frames == [] {
      FeedNone(r, kind);
    } else {
      var n := |frames| - 1;
      PacketsInSequence(r, level, max, kind, frames[..n], streams[..n], cuts[..n]);
      var (r1, answers) := Feed(r, kind, JoinAll(cuts[..n]));
      FeedFrom(r, kind, JoinAll(cuts[..n]), cuts[n]);
      NextPacket(r1, level, max, kind, frames[n], streams[n], cuts[n]);
      JoinAnswers(answers, Silence(|cuts[n]| - 1), [Ok(Some(FramePacket(streams[n], frames[n])))]);
    }
  }

  lemma JoinAnswers(a: seq<Answer>, b: seq<Answer>, c: seq<Answer>)
    ensures a + (b + c) == a + b + c
  {
  }

  lemma FeedNone(r: Reader, kind: Kind)
    ensures Feed(r, kind, []) == (r, [])
  {
  }

  lemma OnePacket(level: Level, max: Unsigned, kind: Kind, f: Frame, stream: string, pieces: seq<string>)
    requires Framed(level, kind, stream, f) && NoEarlyBareEnd(stream) && WithinLimit(max, stream)
    requires Cuts(pieces, stream)
    ensures BodyStart(f) <= |stream| && pieces != []
    ensures
      var (r, answers) := Feed(Fresh(level, max), kind, pieces);
      && answers == Silence(|pieces| - 1) + [Ok(Some(FramePacket(stream, f)))]
      && r.constructed && r.level == level && r.maxSize == max
  {
    hide HeaderEnd, Build, ContentLength, NoEarlyBareEnd, Feed, FramePacket;
    FramedNotEmpty(level, kind, stream, f);
    assert stream[..|stream|] == stream;
    FeedFramed(level, max, kind, stream, f, pieces);
  }
}
