/** What every parsed header is like, so that it can be printed and parsed again. */
module HeaderNormalForm {
  import opened Results
  import opened Text
  import opened HttpHeader

  // ----- Trimming and lowering -----

  /** Trimming cuts off both ends. */
  lemma {:induction false} DropTrailingIsPrefix(s: string) returns (n: nat)
    ensures n <= |s| && DropTrailingBlank(s) == s[..n]
    ensures n > 0 ==> !IsBlank(s[n - 1])
  {
    if s != [] && IsBlank(s[|s| - 1]) {
      n := DropTrailingIsPrefix(s[..|s| - 1]);
      assert s[..|s| - 1][..n] == s[..n];
    } else {
      n := |s|;
      assert s[..n] == s;
    }
  }

  lemma TrimIsSlice(s: string) returns (i: nat, j: nat)
    ensures i <= j <= |s| && Trim(s) == s[i..j]
    ensures Trimmed(Trim(s))
  {
    hide SkipBlank, DropTrailingBlank, IsBlank;
    var ws := BlanksBefore(s);
    var t := SkipBlank(s);
    i := |ws|;
    assert t == s[i..];
    var n := DropTrailingIsPrefix(t);
    j := i + n;
    assert t[..n] == s[i..j];
    if n > 0 {
      assert t[..n][0] == t[0] && t[..n][n - 1] == t[n - 1];
    }
  }

  lemma LowerFacts(s: string)
    ensures |Lower(s)| == |s| && Lower(Lower(s)) == Lower(s)
    ensures forall i :: 0 <= i < |s| ==>
              && (IsBlank(Lower(s)[i]) <==> IsBlank(s[i]))
              && (IsBreak(Lower(s)[i]) <==> IsBreak(s[i]))
              && (Lower(s)[i] == ':' <==> s[i] == ':')
  {
    forall i | 0 <= i < |s|
      ensures
        && LowerChar(LowerChar(s[i])) == LowerChar(s[i])
        && (IsBlank(Lower(s)[i]) <==> IsBlank(s[i]))
        && (IsBreak(Lower(s)[i]) <==> IsBreak(s[i]))
        && (Lower(s)[i] == ':' <==> s[i] == ':')
    {
      assert Lower(s)[i] == LowerChar(s[i]);
    }
  }

  // ----- Lines -----

  /** No field contains a separator. */
  lemma {:induction false} FieldsAreWhole(s: string, sep: char -> bool)
    ensures forall k :: 0 <= k < |Split(s, sep)| ==> Whole(Split(s, sep)[k], sep)
    decreases |s|
  {
    var n := FieldLength(s, sep);
    if n < |s| {
      FieldsAreWhole(SkipSeparators(s[n..], sep), sep);
    }
  }

  // ----- Parsed options -----

  /** The option a line gives is clean, whatever the line is like. */
  lemma ParsedOptionClean(line: string, level: Level, options: Options)
    requires OneLine(line) && AllClean(options, level) && ParseOption(line, level, options).Ok?
    ensures AllClean(ParseOption(line, level, options).value, level)
  {
    hide Validate, Find, Trim, Lower;
    var c := Find(line, ":").value;
    assert At(line, ":", c);
    var before, after := line[..c], line[c + 1..];
    var i, j := TrimIsSlice(before);
    var k, l := TrimIsSlice(after);
    var name, value := Lower(Trim(before)), Trim(after);
    LowerFacts(Trim(before));
    NoColonBefore(line, c);
    assert forall x :: 0 <= x < |Trim(before)| ==> Trim(before)[x] == line[i + x];
    assert forall x :: 0 <= x < |value| ==> value[x] == line[c + 1 + k + x];
    NotFound(name, ":", ':');
    assert Clean(name, value, level);
  }

  lemma NoColonBefore(line: string, c: nat)
    requires Find(line, ":") == Some(c)
    ensures forall x :: 0 <= x < c ==> line[x] != ':'
  {
    forall x | 0 <= x < c
      ensures line[x] != ':'
    {
      assert !At(line, ":", x);
      assert line[x..x + 1] == [line[x]];
    }
  }

  lemma {:induction false} ParsedOptionsClean(lines: seq<string>, level: Level, options: Options)
    requires forall k :: 0 <= k < |lines| ==> OneLine(lines[k])
    requires AllClean(options, level) && ParseOptions(lines, level, options).Ok?
    ensures AllClean(ParseOptions(lines, level, options).value, level)
    ensures options.Keys <= ParseOptions(lines, level, options).value.Keys
    decreases |lines|
  {
    hide ParseOption, AllClean;
    if lines != [] {
      ParsedOptionClean(lines[0], level, options);
      KeysGrow(lines[0], level, options);
      ParsedOptionsClean(lines[1..], level, ParseOption(lines[0], level, options).value);
    }
  }

  lemma KeysGrow(line: string, level: Level, options: Options)
    requires ParseOption(line, level, options).Ok?
    ensures options.Keys <= ParseOption(line, level, options).value.Keys
  {
  }

  lemma InitialIsClean(level: Level)
    ensures AllClean(INITIAL, level)
  {
    var name, value := "connection", "close";
    hide Find;
    NotFound(name, ":", ':');
    assert Lower(name) == name && Lower(value) == value;
  }

  /** Every header that is parsed has a one-line head and only clean options, each accepted by its
      validator; so what it says about its length can always be read. */
  lemma ParsedIsClean(text: string, level: Level)
    requires Parse(text, level).Ok?
    ensures OneLine(Parse(text, level).value.headLine)
    ensures AllClean(Parse(text, level).value.options, level) && "connection" in Parse(text, level).value.options
    ensures ContentLength(Parse(text, level).value) != Err(MalformedPacket)
  {
    hide ParseOptions, Find, Lower;
    FieldsAreWhole(text, IsBreak);
    InitialIsClean(level);
    var lines := Split(text, IsBreak);
    assert Whole(lines[0], IsBreak);
    ParsedOptionsClean(lines[1..], level, INITIAL);
  }

  /** Printing a parsed header and parsing it again changes nothing. */
  lemma ParsePrintParse(text: string, level: Level, order: seq<string>)
    requires Parse(text, level).Ok? && Enumerates(order, Parse(text, level).value.options)
    ensures
      var h := Parse(text, level).value;
      var again := Dump(h.headLine, h.options, order);
      |again| >= 4 && Parse(again[..|again| - 4], level) == Ok(h)
  {
    hide Parse, Dump;
    ParsedIsClean(text, level);
    var h := Parse(text, level).value;
    HeaderRoundTrip(h.headLine, h.options, order, level);
  }

  /** A printed header is read back exactly if its head is one line and all its options are clean. */
  lemma HeaderRoundTripExactly(head: string, options: Options, order: seq<string>, level: Level)
    requires Enumerates(order, options)
    ensures
      var text := Dump(head, options, order);
      && |text| >= 4
      && (Parse(text[..|text| - 4], level) == Ok(Header(head, INITIAL + options))
          <==> OneLine(head) && AllClean(options, level))
  {
    hide Parse, Clean, Lines, OneLine;
    var text := Dump(head, options, order);
    if OneLine(head) && AllClean(options, level) {
      HeaderRoundTrip(head, options, order, level);
    }
    if Parse(text[..|text| - 4], level) == Ok(Header(head, INITIAL + options)) {
      ParsedIsClean(text[..|text| - 4], level);
      assert forall k :: k in options ==> k in INITIAL + options && (INITIAL + options)[k] == options[k];
    }
  }

  // ----- Levels -----

  /** What passes the strict checks passes the weak ones, with the same result. */
  lemma {:induction false} StrictOptionsAreWeak(lines: seq<string>, options: Options)
    requires ParseOptions(lines, Strict, options).Ok?
    ensures ParseOptions(lines, Weak, options) == ParseOptions(lines, Strict, options)
    decreases |lines|
  {
    hide Find, Lower, Trim;
    if lines != [] {
      StrictOptionsAreWeak(lines[1..], ParseOption(lines[0], Strict, options).value);
    }
  }

  lemma StrictIsWeak(text: string)
    requires Parse(text, Strict).Ok?
    ensures Parse(text, Weak) == Parse(text, Strict)
  {
    hide ParseOptions;
    StrictOptionsAreWeak(Split(text, IsBreak)[1..], INITIAL);
  }

  /** A header that only the weak checks accept is refused by the strict ones for its content type. */
  lemma {:induction false} OnlyContentTypeDiffers(lines: seq<string>, options: Options)
    requires ParseOptions(lines, Weak, options).Ok? && ParseOptions(lines, Strict, options).Err?
    ensures ParseOptions(lines, Strict, options) == Err(UnsupportedContentType)
    decreases |lines|
  {
    hide Find, Lower, Trim;
    if ParseOption(lines[0], Strict, options).Ok? {
      OnlyContentTypeDiffers(lines[1..], ParseOption(lines[0], Strict, options).value);
    }
  }
}
