/** What the header classes accept, where a header ends, and what its length option rules. */
module HeaderRules {
  import opened Results
  import opened Decimal
  import opened DecimalLaws
  import opened Text
  import opened TextLaws
  import opened HttpHeader
  import opened HeaderLines
  import opened PacketReader
  import opened Fragmentation
  import opened SizeLimit

  // ----- Header texts -----

  /** A header of a head line only has one option. */
  lemma HeadLineOnly(head: string, level: Level)
    requires '\r' !in head && '\n' !in head
    ensures Parse(head, level) == Ok(Header(head, map["connection" := "close"]))
  {
    hide ParseOption;
    assert Whole(head, IsBreak);
    SplitWhole(head, IsBreak);
    assert [head][1..] == [];
  }

  /** A printed header, character by character. */
  lemma DumpOne(head: string, name: string, value: string)
    ensures Dump(head, map[name := value], [name]) == head + "\r\n" + name + ": " + value + "\r\n\r\n"
  {
    var lines := OptionLines(map[name := value], [name]);
    assert lines == [name + ": " + value] && lines[1..] == [];
    assert Lines(lines) == name + ": " + value + "\r\n" + "";
  }

  lemma FirstWord(s: string)
    ensures
      var words := Split(s, IsBlank);
      && (words[0] == "POST" <==> s == "POST" || exists c, rest :: c in BLANKS && s == "POST" + [c] + rest)
      && (|words| >= 2 <==> exists c :: c in s && c in BLANKS)
  {
    var n := FieldLength(s, IsBlank);
    assert Split(s, IsBlank)[0] == s[..n] by {
      assert s[..|s|] == s;
    }
    if n < |s| {
      BlankTable(s[n]);
      assert s == s[..n] + [s[n]] + s[n + 1..];
    }
    forall c | c in s
      ensures n == |s| ==> c !in BLANKS
    {
      BlankTable(c);
    }
    forall c, rest | c in BLANKS && s == "POST" + [c] + rest
      ensures s[..n] == "POST"
    {
      BlankTable(c);
      assert s[4] == c;
      assert forall i :: 0 <= i < 4 ==> s[i] == "POST"[i];
      assert "POST"[0] == 'P' && "POST"[1] == 'O' && "POST"[2] == 'S' && "POST"[3] == 'T';
      assert n == 4;
    }
  }

  /** A request's method must be POST; the options a request may leave out are filled in. */
  lemma RequestBuilt(text: string, level: Level)
    ensures Build(Request, level, text) ==
            match Parse(text, level)
            case Err(e) => Err(e)
            case Ok(h) =>
              if h.headLine == "POST" || exists c, rest :: c in BLANKS && h.headLine == "POST" + [c] + rest then
                Ok(Header(h.headLine, map["host" := "", "user-agent" := "unknown"] + h.options))
              else
                Err(MethodNotAllowed)
  {
    hide Parse, Split;
    if Parse(text, level).Ok? {
      var h := Parse(text, level).value;
      FirstWord(h.headLine);
      assert WithDefault(WithDefault(h.options, "host", ""), "user-agent", "unknown") ==
             map["host" := "", "user-agent" := "unknown"] + h.options;
    }
  }

  /** A response's head line must have a second word. */
  lemma ResponseBuilt(text: string, level: Level)
    ensures Build(Response, level, text) ==
            match Parse(text, level)
            case Err(e) => Err(e)
            case Ok(h) =>
              if exists c :: c in h.headLine && c in BLANKS then
                Ok(Header(h.headLine, map["server" := "unknown"] + h.options))
              else
                Err(MalformedPacket)
  {
    hide Parse, Split;
    if Parse(text, level).Ok? {
      var h := Parse(text, level).value;
      FirstWord(h.headLine);
      assert WithDefault(h.options, "server", "unknown") == map["server" := "unknown"] + h.options;
    }
  }

  // ----- Where a header ends -----

  /** `i` characters come before the first occurrence of `pat` in `s`. */
  ghost predicate FirstAt(s: string, pat: string, i: nat) {
    && i + |pat| <= |s| && s == s[..i] + pat + s[i + |pat|..]
    && forall a, b :: s == a + pat + b ==> i <= |a|
  }

  lemma FindIsFirst(s: string, pat: string, i: nat)
    ensures Find(s, pat) == Some(i) <==> FirstAt(s, pat, i)
  {
    hide Find;
    if Find(s, pat).Some? {
      FoundParts(s, pat);
    }
    forall a, b | s == a + pat + b
      ensures Find(s, pat).Some? && Find(s, pat).value <= |a|
    {
      FindExactly(s, pat, a, b);
    }
    if FirstAt(s, pat, i) && Find(s, pat).Some? {
      var j := Find(s, pat).value;
      assert i <= |s[..j]|;
    }
  }

  /** A header ends at its first CRLFCRLF; if there is none, at its first pair of line feeds. */
  lemma HeaderEndExactly(text: string, i: nat, len: nat)
    ensures HeaderEnd(text) == Some((i, len)) <==>
            || (len == 4 && FirstAt(text, "\r\n\r\n", i))
            || (len == 2 && FirstAt(text, "\n\n", i) && !exists a, b :: text == a + "\r\n\r\n" + b)
  {
    hide Find, FirstAt;
    FindIsFirst(text, "\r\n\r\n", i);
    FindIsFirst(text, "\n\n", i);
    Occurs(text, "\r\n\r\n");
  }

  /** Before the header is complete a read must bring something. */
  lemma EmptyBeforeHeader(r: Reader, kind: Kind, hdrOnly: bool)
    requires !r.constructed && r.header == None && (r.maxSize == 0 || r.totalSize < r.maxSize)
    ensures Read(r, kind, "", hdrOnly) == (r, Err(MalformedPacket))
  {
    assert |""| == 0;
  }

  // ----- A header without a length -----

  /** The reader has a header that says nothing of its length. */
  predicate Lengthless(r: Reader) {
    !r.constructed && r.header.Some? && "content-length" !in r.header.value.options
  }

  /** The read that completes such a header answers that a length is required. */
  lemma LengthRequiredAtOnce(r: Reader, kind: Kind, s: string, i: nat, len: nat, h: Header)
    requires !r.constructed && r.header == None && r.maxSize == 0 && s != ""
    requires HeaderEnd(r.headerCache + s) == Some((i, len))
    requires Build(kind, r.level, (r.headerCache + s)[..i]) == Ok(h) && "content-length" !in h.options
    ensures
      var (r', a) := Read(r, kind, s, false);
      a == Err(LengthRequired) && Lengthless(r') && r'.header == Some(h) && r'.maxSize == 0
  {
    hide HeaderEnd, Build, MakePacket;
  }

  /** So does every later read that is not for the header only, whatever it brings and under any limit. */
  lemma {:induction false} LengthRequiredAfterwards(r: Reader, calls: seq<Call>)
    requires Lengthless(r) && forall k :: 0 <= k < |calls| ==> !calls[k].hdrOnly
    ensures Lengthless(After(r, calls))
    ensures calls != [] ==> LastAnswer(r, calls) == Err(LengthRequired)
    decreases |calls|
  {
    hide Read, Lengthless;
    if calls != [] {
      var front, c := calls[..|calls| - 1], calls[|calls| - 1];
      LengthRequiredAfterwards(r, front);
      LengthRequiredAgain(After(r, front), c);
    }
  }

  lemma LengthRequiredAgain(r: Reader, c: Call)
    requires Lengthless(r) && !c.hdrOnly
    ensures Read(r, c.kind, c.bytes, false).1 == Err(LengthRequired)
    ensures Lengthless(Read(r, c.kind, c.bytes, false).0)
  {
    hide HeaderEnd, Build, MakePacket;
  }

  /** In any fragments, without a limit: nothing until the header is complete, and from then on the error. */
  lemma {:induction false} LengthRequiredInFragments(
      level: Level, kind: Kind, stream: string, end: nat, gap: nat, h: Header, pieces: seq<string>)
    requires HeaderEnd(stream) == Some((end, gap)) && NoEarlyBareEnd(stream) && end + gap <= |stream|
    requires Build(kind, level, stream[..end]) == Ok(h) && "content-length" !in h.options
    requires forall i :: 0 <= i < |pieces| ==> pieces[i] != ""
    requires |Join(pieces)| <= |stream| && stream[..|Join(pieces)|] == Join(pieces)
    ensures
      var (r, answers) := Feed(Fresh(level, 0), kind, pieces);
      && |answers| == |pieces|
      && (if |Join(pieces)| < end + gap then r == Fresh(level, 0).(headerCache := Join(pieces))
          else Lengthless(r) && r.maxSize == 0)
      && forall k :: 0 <= k < |pieces| ==>
           answers[k] == if |Join(pieces[..k + 1])| < end + gap then Ok(None) else Err(LengthRequired)
    decreases |pieces|
  {
    hide HeaderEnd, Build, NoEarlyBareEnd, Read, Lengthless;
    if pieces == [] {
      HeaderEndPositive(stream);
    } else {
      var front, s := pieces[..|pieces| - 1], pieces[|pieces| - 1];
      var n := |Join(front)|;
      assert stream[..n + |s|][..n] == Join(front);
      LengthRequiredInFragments(level, kind, stream, end, gap, h, front);
      var r := Feed(Fresh(level, 0), kind, front).0;
      assert pieces[..|pieces|] == pieces;
      forall k | 0 <= k < |front|
        ensures Feed(Fresh(level, 0), kind, front).1[k] ==
                if |Join(pieces[..k + 1])| < end + gap then Ok(None) else Err(LengthRequired)
      {
        assert front[..k + 1] == pieces[..k + 1];
      }
      if n < end + gap {
        assert r.headerCache + s == stream[..n + |s|];
        HeaderEndOfPrefix(stream, end, gap, n + |s|);
        if n + |s| < end + gap {
          StillNoHeader(r, kind, s);
        } else {
          assert stream[..n + |s|][..end] == stream[..end];
          LengthRequiredAtOnce(r, kind, s, end, gap, h);
        }
      } else {
        LengthRequiredAgain(r, Call(kind, s, false));
        LimitKept(r, kind, s);
      }
    }
  }

  lemma StillNoHeader(r: Reader, kind: Kind, s: string)
    requires !r.constructed && r.header == None && r.maxSize == 0 && s != ""
    requires HeaderEnd(r.headerCache + s) == None
    ensures Read(r, kind, s, false) == (r.(headerCache := r.headerCache + s), Ok(None))
  {
    hide HeaderEnd, Build;
  }

  lemma LimitKept(r: Reader, kind: Kind, s: string)
    ensures Read(r, kind, s, false).0.maxSize == r.maxSize
  {
    hide HeaderEnd, Build, ContentLength, MakePacket;
  }

  // ----- A header with a length -----

  /** The header of the packet that is handed out: the one that was read, with the length it has. */
  function Handed(h: Header, n: nat): Header {
    Header(h.headLine,
           h.options["content-length" := IntToString(n)] + if n > 0 then map["content-type" := "text/xml"] else map[])
  }

  lemma HandedIsMade(h: Header, content: string)
    ensures MakePacket(h, content) == Packet(Handed(h, |content|), content)
  {
    var options := h.options["content-length" := NatToString(|content|)];
    assert options + map[] == options;
    assert options["content-type" := "text/xml"] == options + map["content-type" := "text/xml"];
  }

  /** What a reader that has the header `h` and the content `content` answers: the packet with the bytes its
      length option counts, once they are there; nothing before; and an error if the option is missing or is no
      32-bit number. */
  function Due(h: Header, content: string): Answer {
    if "content-length" !in h.options then
      Err(LengthRequired)
    else
      var text := h.options["content-length"];
      if text == "" || (exists c :: c in text && c !in DIGITS) || Positional(text) >= 4294967296 then
        Err(MalformedPacket)
      else if |content| >= Positional(text) && Positional(text) >= 0 then
        Ok(Some(Packet(Handed(h, Positional(text)), content[..Positional(text)])))
      else
        Ok(None)
  }

  lemma DeliverIsDue(r: Reader)
    requires r.header.Some?
    ensures Deliver(r, false).1 == Due(r.header.value, r.contentCache)
  {
    hide LexicalUnsigned, Positional, MakePacket, Handed;
    var h := r.header.value;
    if "content-length" in h.options {
      var text := h.options["content-length"];
      UnsignedText(text);
      if LexicalUnsigned(text).Some? && |r.contentCache| >= Positional(text) {
        HandedIsMade(h, r.contentCache[..Positional(text)]);
      }
    }
  }

  /** The read that completes a header answers what is due for the content that came with it. */
  lemma HeaderCompleted(r: Reader, kind: Kind, s: string, i: nat, len: nat, h: Header)
    requires !r.constructed && r.header == None && r.contentCache == "" && r.maxSize == 0 && s != ""
    requires HeaderEnd(r.headerCache + s) == Some((i, len))
    requires Build(kind, r.level, (r.headerCache + s)[..i]) == Ok(h)
    ensures Read(r, kind, s, false).1 == Due(h, (r.headerCache + s)[i + len..])
  {
    hide HeaderEnd, Build, Deliver, Due;
    var content := (r.headerCache + s)[i + len..];
    assert "" + content == content;
    DeliverIsDue(Absorb(r, kind, s).0);
  }

  /** A later read answers what is due for all content so far. */
  lemma ContentRead(r: Reader, kind: Kind, s: string)
    requires !r.constructed && r.header.Some? && r.maxSize == 0
    ensures Read(r, kind, s, false).1 == Due(r.header.value, r.contentCache + s)
  {
    hide Deliver, Due;
    DeliverIsDue(r.(contentCache := r.contentCache + s));
  }
}
