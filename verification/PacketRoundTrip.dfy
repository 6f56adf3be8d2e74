/** A dumped packet, sent in any fragments, is read back. */
module PacketRoundTrip {
  import opened Results
  import opened Decimal
  import opened Text
  import opened HttpHeader
  import opened PacketReader
  import opened Fragmentation

  /** `Packet::dump`. */
  function DumpPacket(head: string, options: Options, order: seq<string>, content: string): string
    requires forall k :: k in order ==> k in options
  {
    Dump(head, options, order) + content
  }

  // ----- The blank line comes first at the end of the header -----

  /** A line and its end do not contain the blank line, if the next line is not empty. */
  lemma NoBlankLineIn(line: string, next: string)
    requires OneLine(line) && next != "" && !IsBreak(next[0])
    ensures forall i: nat :: i < |line + CRLF| ==> !At(line + CRLF + next, END, i)
  {
    var s := line + CRLF + next;
    forall i: nat | i < |line + CRLF|
      ensures !At(s, END, i)
    {
      NotAt(s, END, i, if i == |line| then 2 else 0);
    }
  }

  lemma {:induction false} BlankLineFirst(head: string, lines: seq<string>, content: string)
    requires OneLine(head) && forall i :: 0 <= i < |lines| ==> OneLine(lines[i]) && lines[i] != []
    ensures Find(head + CRLF + Lines(lines) + CRLF + content, END) == Some(|head + CRLF + Lines(lines)| - 2)
    decreases |lines|
  {
    hide Find;
    LinesUnfold(lines);
    if lines == [] {
      var s := head + END + content;
      assert head + CRLF + Lines(lines) + CRLF + content == s;
      assert s == head + (END + content);
      forall i: nat | i < |head|
        ensures !At(s, END, i)
      {
        NotAt(s, END, i, 0);
      }
      FindShifted(head, END + content, END);
      FindAtZero(END, content);
    } else {
      var next := lines[0] + CRLF + Lines(lines[1..]) + CRLF + content;
      BlankLineFirst(lines[0], lines[1..], content);
      assert next[0] == lines[0][0];
      NoBlankLineIn(head, next);
      FindShifted(head + CRLF, next, END);
      assert head + CRLF + Lines(lines) + CRLF + content == (head + CRLF) + next;
    }
  }

  /** Every line feed follows a carriage return. */
  predicate FeedsFollowReturns(s: string) {
    forall i :: 0 <= i < |s| && s[i] == '\n' ==> i > 0 && s[i - 1] == '\r'
  }

  lemma FollowConcat(a: string, b: string)
    requires FeedsFollowReturns(a) && FeedsFollowReturns(b)
    ensures FeedsFollowReturns(a + b)
  {
  }

  lemma {:induction false} LinesFollow(lines: seq<string>)
    requires forall i :: 0 <= i < |lines| ==> OneLine(lines[i])
    ensures FeedsFollowReturns(Lines(lines))
    decreases |lines|
  {
    if lines != [] {
      LinesFollow(lines[1..]);
      FollowConcat(lines[0], CRLF);
      FollowConcat(lines[0] + CRLF, Lines(lines[1..]));
    }
  }

  lemma NoBareEnd(s: string)
    requires FeedsFollowReturns(s)
    ensures Find(s, BARE_END).None?
  {
    forall i: nat | i + 2 <= |s|
      ensures !At(s, BARE_END, i)
    {
      NotAt(s, BARE_END, i, if s[i] == '\n' then 1 else 0);
    }
  }

  /** The header of a dumped packet ends where its dump ends, and no bare line feeds come before. */
  lemma DumpEnd(head: string, options: Options, order: seq<string>, level: Level, content: string)
    requires OneLine(head) && AllClean(options, level) && Enumerates(order, options)
    ensures
      var stream := DumpPacket(head, options, order, content);
      var n := |Dump(head, options, order)|;
      n >= 4 && HeaderEnd(stream) == Some((n - 4, 4)) && NoEarlyBareEnd(stream)
  {
    hide Find, Validate, Lower, OptionLine, Lines;
    var dump := Dump(head, options, order);
    var stream := DumpPacket(head, options, order, content);
    var lines := OptionLines(options, order);
    forall i | 0 <= i < |lines|
      ensures OneLine(lines[i]) && lines[i] != []
    {
      assert order[i] in order;
      OptionLineIsOneLine(order[i], options[order[i]]);
    }
    BlankLineFirst(head, lines, content);
    LinesFollow(lines);
    FollowConcat(head, CRLF);
    FollowConcat(head + CRLF, Lines(lines));
    FollowConcat(head + CRLF + Lines(lines), CRLF);
    NoBareEnd(dump);
    assert stream == head + CRLF + Lines(lines) + CRLF + content;
    assert stream[..|dump|] == dump;
  }

  // ----- The round trip -----

  /** The head line is one the reading constructor accepts. */
  predicate HeadAccepted(kind: Kind, head: string) {
    match kind
    case Request => Split(head, IsBlank)[0] == "POST"
    case Response => |Split(head, IsBlank)| >= 2
  }

  function Defaults(kind: Kind, options: Options): Options {
    match kind
    case Request => WithDefault(WithDefault(options, "host", ""), "user-agent", "unknown")
    case Response => WithDefault(options, "server", "unknown")
  }

  /** The options a packet has: a connection option since the header was made, the length of the content,
      and XML as its type if there is any. */
  predicate PacketOptions(options: Options, content: string) {
    && "connection" in options
    && "content-length" in options && options["content-length"] == NatToString(|content|)
    && (content != "" ==> "content-type" in options && options["content-type"] == "text/xml")
  }

  /** A packet with clean options, dumped and sent in any fragments, arrives with the last fragment, under
      any limit it is within and under no other: same head line, same options up to the reader's defaults,
      same content. */
  lemma DumpedPacketArrives(
      head: string, options: Options, order: seq<string>, content: string, level: Level, max: Unsigned, kind: Kind)
    requires OneLine(head) && AllClean(options, level) && Enumerates(order, options)
    requires PacketOptions(options, content) && |content| < UNSIGNED_MODULUS && HeadAccepted(kind, head)
    ensures
      var stream := DumpPacket(head, options, order, content);
      Independent(level, max, kind, stream, Packet(Header(head, Defaults(kind, options)), content))
      <==> WithinLimit(max, stream)
  {
    hide Find, Validate, Lower, Dump, PacketOptions, HeadAccepted, NatToString, AllClean, NoEarlyBareEnd, Independent,
      MakePacket, Framed;
    var stream := DumpPacket(head, options, order, content);
    var p := Packet(Header(head, Defaults(kind, options)), content);
    var f := DumpedIsFramed(head, options, order, content, level, kind);
    if WithinLimit(max, stream) {
      FramedIsIndependent(level, max, kind, stream, f);
    } else {
      OverLimitRejected(level, max, kind, stream, p);
    }
  }

  /** A dumped packet is one framed packet. */
  lemma DumpedIsFramed(head: string, options: Options, order: seq<string>, content: string, level: Level, kind: Kind)
    returns (f: Frame)
    requires OneLine(head) && AllClean(options, level) && Enumerates(order, options)
    requires PacketOptions(options, content) && |content| < UNSIGNED_MODULUS && HeadAccepted(kind, head)
    ensures
      var stream := DumpPacket(head, options, order, content);
      && Framed(level, kind, stream, f) && NoEarlyBareEnd(stream) && BodyStart(f) <= |stream|
      && FramePacket(stream, f) == Packet(Header(head, Defaults(kind, options)), content)
  {
    hide Find, Validate, Lower, Split, Dump, LexicalUnsigned, NatToString, AllClean, Framed, HeaderEnd, NoEarlyBareEnd,
      Parse, MakePacket, ContentLength, Build, HeadAccepted, OneLine;
    var dump := Dump(head, options, order);
    var stream := DumpPacket(head, options, order, content);
    DumpEnd(head, options, order, level, content);
    HeaderRoundTrip(head, options, order, level);
    assert stream[..|dump| - 4] == dump[..|dump| - 4] && stream[|dump|..] == content;
    var h := Header(head, Defaults(kind, options));
    BuildAccepted(kind, level, stream[..|dump| - 4], head, options);
    f := Frame(|dump| - 4, 4, h);
    LengthRead(h, |content|);
    FramedBy(level, kind, stream, f);
    SameOptions(h, content);
  }

  lemma BuildAccepted(kind: Kind, level: Level, text: string, head: string, options: Options)
    requires Parse(text, level) == Ok(Header(head, options)) && HeadAccepted(kind, head)
    ensures Build(kind, level, text) == Ok(Header(head, Defaults(kind, options)))
  {
    hide Parse, Split;
  }

  lemma LengthRead(h: Header, n: nat)
    requires "content-length" in h.options && h.options["content-length"] == NatToString(n) && n < UNSIGNED_MODULUS
    ensures ContentLength(h) == Ok(n)
  {
    UnsignedRoundTrip(n);
  }

  lemma FramedBy(level: Level, kind: Kind, stream: string, f: Frame)
    requires HeaderEnd(stream) == Some((f.end, f.gap)) && BodyStart(f) <= |stream|
    requires Build(kind, level, stream[..f.end]) == Ok(f.header)
    requires ContentLength(f.header) == Ok(|stream| - BodyStart(f))
    ensures Framed(level, kind, stream, f)
  {
  }

  lemma SameOptions(h: Header, content: string)
    requires PacketOptions(h.options, content)
    ensures MakePacket(h, content) == Packet(h, content)
  {
  }
}
