/** A stream on which the reader's answer depends on how the stream is cut. */
module BareLineFeeds {
  import opened Results
  import opened Decimal
  import opened Text
  import opened HttpHeader
  import opened PacketReader
  import opened Fragmentation

  /** A response header with a pair of bare line feeds before its CRLFCRLF, and no body. */
  const LINE1 := "a b"
  const LINE2 := "content-length:0"
  const LINE3 := "c:"
  const HEADER := LINE1 + "\n" + (LINE2 + "\n\n" + LINE3)
  const STREAM := HEADER + END

  lemma ThreeLines(a: string, b: string, c: string)
    requires OneLine(a) && OneLine(b) && OneLine(c) && b != "" && c != ""
    ensures Split(a + "\n" + (b + "\n\n" + c), IsBreak) == [a, b, c]
  {
    hide Split;
    var rest := b + "\n\n" + c;
    assert rest[0] == b[0];
    SplitField(a, "\n", rest, IsBreak);
    SplitField(b, "\n\n", c, IsBreak);
    SplitWhole(c, IsBreak);
    assert [a] + ([b] + [c]) == [a, b, c];
  }

  lemma HeaderLines()
    ensures Split(HEADER, IsBreak) == [LINE1, LINE2, LINE3]
  {
    hide Split;
    ThreeLines(LINE1, LINE2, LINE3);
  }

  const LENGTH := "content-length"

  lemma LengthIsName()
    ensures Trimmed(LENGTH) && Lower(LENGTH) == LENGTH && Find(LENGTH, ":").None?
  {
    hide Find;
    NotFound(LENGTH, ":", ':');
  }

  lemma ZeroIsLength(level: Level)
    ensures Trimmed("0") && Validate(LENGTH, "0", level).None?
  {
    hide LexicalUnsigned, NatToString, Find;
    ZeroText();
    UnsignedRoundTrip(0);
  }

  lemma LengthOption(level: Level)
    ensures ParseOption(LINE2, level, INITIAL) == Ok(INITIAL["content-length" := "0"])
  {
    hide Find, Lower, Validate, ParseOption, Trimmed;
    LengthIsName();
    ZeroIsLength(level);
    SpacedOption(LENGTH, "", "0", level, INITIAL);
    assert LINE2 == LENGTH + ":" + ("" + "0");
  }

  lemma OtherIsName(level: Level)
    ensures Trimmed("c") && Lower("c") == "c" && Find("c", ":").None? && Validate("c", "", level).None?
  {
    hide Find;
    NotFound("c", ":", ':');
    assert |"c"| == 1;
  }

  lemma OtherOption(level: Level, start: Options)
    ensures ParseOption(LINE3, level, start) == Ok(start["c" := ""])
  {
    hide Find, Lower, Validate, ParseOption;
    OtherIsName(level);
    SpacedOption("c", "", "", level, start);
    assert LINE3 == "c" + ":" + ("" + "");
  }

  const OPTIONS := INITIAL["content-length" := "0"]["c" := ""]["server" := "unknown"]

  lemma HeaderBuilt(level: Level)
    ensures Build(Response, level, HEADER) == Ok(Header(LINE1, OPTIONS))
    ensures ContentLength(Header(LINE1, OPTIONS)) == Ok(0)
  {
    hide ParseOption, Split, LexicalUnsigned, NatToString;
    HeaderLines();
    LengthOption(level);
    OtherOption(level, INITIAL["content-length" := "0"]);
    var lines := [LINE1, LINE2, LINE3];
    assert lines[1..] == [LINE2, LINE3] && [LINE2, LINE3][1..] == [LINE3] && [LINE3][1..] == [];
    var one := INITIAL["content-length" := "0"];
    assert ParseOptions([LINE3], level, one) == Ok(one["c" := ""]);
    assert ParseOptions([LINE2, LINE3], level, INITIAL) == Ok(one["c" := ""]);
    SplitField("a", " ", "b", IsBlank);
    SplitWhole("b", IsBlank);
    assert LINE1 == "a" + " " + "b";
    assert |Split(LINE1, IsBlank)| == 2;
    assert |"server"| == 6 && |"c"| == 1 && |"content-length"| == 14 && |"connection"| == 10;
    UnsignedRoundTrip(0);
    ZeroText();
  }

  lemma ZeroText()
    ensures NatToString(0) == "0"
  {
  }

  /** The stream is one framed packet, yet some way of cutting it does not give that packet with the last
      fragment. */
  lemma DependsOnCut(level: Level)
    ensures
      var f := Frame(|HEADER|, 4, Header(LINE1, OPTIONS));
      && Framed(level, Response, STREAM, f)
      && !NoEarlyBareEnd(STREAM)
      && exists pieces :: Cuts(pieces, STREAM)
                          && !OnlyAtTheEnd(Feed(Fresh(level, 0), Response, pieces).1, FramePacket(STREAM, f))
  {
    hide Find, Build, ContentLength, Feed;
    var f := Frame(|HEADER|, 4, Header(LINE1, OPTIONS));
    HeaderBuilt(level);
    forall i: nat | i < |HEADER|
      ensures !At(STREAM, END, i)
    {
      NotAt(STREAM, END, i, 0);
    }
    FindShifted(HEADER, END, END);
    FindAtZero(END, "");
    assert END + "" == END;
    assert STREAM[..|HEADER|] == HEADER && STREAM[..|HEADER| + 4] == STREAM;
    assert At(STREAM, BARE_END, |LINE1| + 1 + |LINE2|);
    assert Framed(level, Response, STREAM, f);
    var pieces := EarlyBareEndSplits(level, 0, Response, STREAM, f);
  }
}
