/** What a header line is read as, option by option. */
module HeaderLines {
  import opened Results
  import opened Decimal
  import opened DecimalLaws
  import opened Text
  import opened TextLaws
  import opened HttpHeader

  // ----- The parts of a line -----

  /** `line` is a name, a colon and a value, with any blanks around name and value. */
  ghost predicate IsLine(line: string, name: string, value: string) {
    && Bare(name) && ':' !in name && Bare(value)
    && exists a, b, c, d ::
         && Blank(a) && Blank(b) && Blank(c) && Blank(d)
         && line == (a + name + b) + ":" + (c + value + d)
  }

  lemma NoColon(s: string)
    ensures ':' !in s <==> Find(s, ":").None?
  {
    if ':' !in s {
      NotFound(s, ":", ':');
    } else {
      var i :| 0 <= i < |s| && s[i] == ':';
      assert At(s, ":", i);
    }
  }

  lemma BlankHasNoColon(s: string)
    requires Blank(s)
    ensures ':' !in s
  {
    BlankTable(':');
  }

  /** A line is read as the option it holds, under its lower-cased name, if its value is accepted. */
  lemma LineRead(line: string, name: string, value: string, level: Level, options: Options)
    requires IsLine(line, name, value)
    ensures ParseOption(line, level, options) ==
            match Validate(Lower(name), value, level)
            case Some(e) => Err(e)
            case None => Ok(options[Lower(name) := value])
  {
    hide Validate, Find, Lower, Trim, Blank, Bare;
    var a, b, c, d :|
      Blank(a) && Blank(b) && Blank(c) && Blank(d) && line == (a + name + b) + ":" + (c + value + d);
    var left, right := a + name + b, c + value + d;
    BlankHasNoColon(a);
    BlankHasNoColon(b);
    NoColon(left);
    ColonAt(left, right);
    assert line[..|left|] == left && line[|left| + 1..] == right;
    TrimExactly(a, name, b);
    TrimExactly(c, value, d);
  }

  /** Every line with a colon is such a line. */
  lemma EveryLine(line: string) returns (name: string, value: string)
    requires ':' in line
    ensures IsLine(line, name, value)
  {
    hide Find, Trim, Blank, Bare;
    NoColon(line);
    FoundParts(line, ":");
    var i := Find(line, ":").value;
    var left, right := line[..i], line[i + 1..];
    FindInPrefix(line, ":", i);
    NoColon(left);
    var a, b := TrimParts(left);
    var c, d := TrimParts(right);
    name, value := Trim(left), Trim(right);
    assert line == (a + name + b) + ":" + (c + value + d);
  }

  /** A line without a colon is malformed. */
  lemma LineWithoutColon(line: string, level: Level, options: Options)
    requires ':' !in line
    ensures ParseOption(line, level, options) == Err(MalformedPacket)
  {
    NoColon(line);
  }

  // ----- What each option may say -----

  lemma ConnectionLine(line: string, name: string, value: string, level: Level, options: Options)
    requires IsLine(line, name, value) && Lower(name) == "connection"
    ensures ParseOption(line, level, options) ==
            if Lower(value) == "close" || Lower(value) == "keep-alive" then Ok(options["connection" := value])
            else Err(MalformedPacket)
  {
    hide IsLine, ParseOption, Lower, Find, LexicalUnsigned;
    LineRead(line, name, value, level, options);
  }

  lemma ContentLengthLine(line: string, name: string, value: string, level: Level, options: Options)
    requires IsLine(line, name, value) && Lower(name) == "content-length"
    ensures ParseOption(line, level, options) ==
            if value != "" && (forall c :: c in value ==> c in DIGITS) && Positional(value) < 4294967296 then
              Ok(options["content-length" := value])
            else
              Err(MalformedPacket)
  {
    hide IsLine, ParseOption, Lower, Find, LexicalUnsigned, Positional;
    LineRead(line, name, value, level, options);
    UnsignedText(value);
  }

  /** The texts of 32-bit unsigned numbers. */
  lemma UnsignedText(s: string)
    ensures LexicalUnsigned(s).Some? <==>
            s != "" && (forall c :: c in s ==> c in DIGITS) && Positional(s) < 4294967296
    ensures LexicalUnsigned(s).Some? ==> LexicalUnsigned(s).value == Positional(s)
  {
    if LexicalUnsigned(s).Some? {
      LexicalUnsignedExactly(s, LexicalUnsigned(s).value);
    } else if s != "" && forall c :: c in s ==> c in DIGITS {
      AllDigitsExactly(s);
      DigitsArePositional(s);
      LexicalUnsignedExactly(s, Positional(s));
    }
  }

  lemma ContentTypeLine(line: string, name: string, value: string, level: Level, options: Options)
    requires IsLine(line, name, value) && Lower(name) == "content-type"
    ensures ParseOption(line, level, options) ==
            if level == Weak || exists a, b :: Lower(value) == a + "text/xml" + b then
              Ok(options["content-type" := value])
            else
              Err(UnsupportedContentType)
  {
    hide IsLine, ParseOption, Lower, Find, LexicalUnsigned;
    LineRead(line, name, value, level, options);
    Occurs(Lower(value), "text/xml");
  }

  lemma Occurs(s: string, pat: string)
    ensures Find(s, pat).Some? <==> exists a, b :: s == a + pat + b
  {
    if Find(s, pat).Some? {
      FoundParts(s, pat);
    }
    forall a, b | s == a + pat + b
      ensures Find(s, pat).Some?
    {
      FindExactly(s, pat, a, b);
    }
  }

  lemma OtherLine(line: string, name: string, value: string, level: Level, options: Options)
    requires IsLine(line, name, value)
    requires Lower(name) != "connection" && Lower(name) != "content-length" && Lower(name) != "content-type"
    ensures ParseOption(line, level, options) == Ok(options[Lower(name) := value])
  {
    hide IsLine, ParseOption, Lower, Find, LexicalUnsigned;
    LineRead(line, name, value, level, options);
  }

  // ----- Several lines -----

  /** Lines are read one after another; a later one replaces an earlier one of the same name, and the first
      that is refused ends the parse. */
  lemma {:induction false} LinesInOrder(lines: seq<string>, line: string, level: Level, start: Options)
    ensures ParseOptions(lines + [line], level, start) ==
            (var options :- ParseOptions(lines, level, start); ParseOption(line, level, options))
    decreases |lines|
  {
    hide ParseOption;
    if lines == [] {
      assert ([] + [line])[1..] == [];
      assert ParseOptions([], level, start) == Ok(start);
    } else {
      assert (lines + [line])[1..] == lines[1..] + [line];
      if ParseOption(lines[0], level, start).Ok? {
        LinesInOrder(lines[1..], line, level, ParseOption(lines[0], level, start).value);
      }
    }
  }

  // ----- What the library writes -----

  lemma {:induction false} LowerOfLower(s: string)
    requires forall i :: 0 <= i < |s| ==> 'a' <= s[i] <= 'z' || s[i] == '-' || s[i] == '/'
    ensures Lower(s) == s && OneLine(s) && Find(s, ":").None?
    ensures Trimmed(s)
  {
    hide Find;
    LowerKeeps(s);
    NotFound(s, ":", ':');
  }

  /** The length, the type and the connection option that the library itself sets are clean at both levels. */
  lemma WrittenOptionsAreClean(n: Unsigned, level: Level)
    ensures Clean("content-length", NatToString(n), level)
    ensures Clean("content-type", "text/xml", level)
    ensures Clean("connection", "keep-alive", level) && Clean("connection", "close", level)
  {
    hide Find, Lower, NatToString, LexicalUnsigned, OneLine, Trimmed;
    LowerOfLower("content-length");
    LowerOfLower("content-type");
    LowerOfLower("connection");
    LowerOfLower("text/xml");
    LowerOfLower("keep-alive");
    LowerOfLower("close");
    UnsignedRoundTrip(n);
    DigitsAreClean(NatToString(n));
    FindExactly("text/xml", "text/xml", "", "");
    assert "text/xml" == "" + "text/xml" + "";
  }

  lemma DigitsAreClean(s: string)
    requires AllDigits(s)
    ensures OneLine(s) && Trimmed(s)
  {
  }
}
