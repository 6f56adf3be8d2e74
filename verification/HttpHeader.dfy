/** HTTP headers: a head line and named options, printed and parsed. */
module HttpHeader {
  import opened Results
  import opened Decimal
  import opened Text

  const CRLF := "\r\n"

  datatype HttpError =
    | MalformedPacket
    | UnsupportedContentType
    | LengthRequired
    | MethodNotAllowed
    | RequestTooLarge

  /** The level of sanity checks; a strict header also runs the weak checks. */
  datatype Level = Weak | Strict

  type Options = map<string, string>

  datatype Header = Header(headLine: string, options: Options)

  /** Which header class reads the text. */
  datatype Kind = Request | Response

  // ----- Options -----

  /** The validators registered by the constructor, run on the value of an option that is read. */
  function Validate(name: string, value: string, level: Level): (e: Option<HttpError>) {
    if name == "content-length" then
      (if LexicalUnsigned(value).None? then Some(MalformedPacket) else None)
    else if name == "content-type" then
      (if level == Strict && Find(Lower(value), "text/xml").None? then Some(UnsupportedContentType) else None)
    else if name == "connection" then
      (if Lower(value) != "close" && Lower(value) != "keep-alive" then Some(MalformedPacket) else None)
    else
      None
  }

  /** One option line: name, colon, value. */
  function ParseOption(line: string, level: Level, options: Options): Result<Options, HttpError> {
    match Find(line, ":")
    case None => Err(MalformedPacket)
    case Some(i) =>
      var name, value := Lower(Trim(line[..i])), Trim(line[i + 1..]);
      match Validate(name, value, level)
      case Some(e) => Err(e)
      case None => Ok(options[name := value])
  }

  function ParseOptions(lines: seq<string>, level: Level, options: Options): Result<Options, HttpError>
    decreases |lines|
  {
    if lines == [] then
      Ok(options)
    else
      var more :- ParseOption(lines[0], level, options);
      ParseOptions(lines[1..], level, more)
  }

  predicate IsBreak(c: char) {
    c == '\r' || c == '\n'
  }

  /** A new header has one option, set by the constructor. */
  const INITIAL: Options := map["connection" := "close"]

  /** `Header::parse` on a new header. */
  function Parse(text: string, level: Level): Result<Header, HttpError> {
    var lines := Split(text, IsBreak);
    var options :- ParseOptions(lines[1..], level, INITIAL);
    Ok(Header(lines[0], options))
  }

  function WithDefault(options: Options, name: string, value: string): Options {
    if name in options then options else options[name := value]
  }

  /** The constructors that read a header: `Request_header` wants the method to be POST,
      `Response_header` wants a status code to be there. */
  function Build(kind: Kind, level: Level, text: string): Result<Header, HttpError> {
    var h :- Parse(text, level);
    var words := Split(h.headLine, IsBlank);
    match kind
    case Request =>
      if words[0] != "POST" then
        Err(MethodNotAllowed)
      else
        Ok(h.(options := WithDefault(WithDefault(h.options, "host", ""), "user-agent", "unknown")))
    case Response =>
      if |words| < 2 then Err(MalformedPacket) else Ok(h.(options := WithDefault(h.options, "server", "unknown")))
  }

  function ContentLength(h: Header): Result<nat, HttpError> {
    if "content-length" !in h.options then
      Err(LengthRequired)
    else
      match LexicalUnsigned(h.options["content-length"])
      case Some(n) => Ok(n)
      case None => Err(MalformedPacket)
  }

  function SetContentLength(h: Header, len: nat): Header {
    var options := h.options["content-length" := NatToString(len)];
    h.(options := if len != 0 then options["content-type" := "text/xml"] else options)
  }

  // ----- Printing -----

  function OptionLine(name: string, value: string): string {
    name + ": " + value
  }

  function OptionLines(options: Options, order: seq<string>): seq<string>
    requires forall k :: k in order ==> k in options
  {
    seq(|order|, i requires 0 <= i < |order| => OptionLine(order[i], options[order[i]]))
  }

  /** Each line with its line end. */
  function Lines(lines: seq<string>): string {
    if lines == [] then "" else lines[0] + CRLF + Lines(lines[1..])
  }

  /** `Header::dump`: the option lines in the order of the container, then an empty line. */
  function Dump(head: string, options: Options, order: seq<string>): string
    requires forall k :: k in order ==> k in options
  {
    head + CRLF + Lines(OptionLines(options, order)) + CRLF
  }

  // ----- Round trip -----

  /** `order` lists the option names, each once. */
  ghost predicate Enumerates(order: seq<string>, options: Options) {
    && (forall k :: k in order <==> k in options)
    && (forall i, j :: 0 <= i < j < |order| ==> order[i] != order[j])
  }

  predicate OneLine(s: string) {
    forall i :: 0 <= i < |s| ==> !IsBreak(s[i])
  }

  /** An option that survives printing: its name trimmed, in lower case and free of colons, its value
      trimmed and accepted by the validators, both without line breaks. */
  predicate Clean(name: string, value: string, level: Level) {
    && OneLine(name) && Trimmed(name) && Lower(name) == name && Find(name, ":").None?
    && OneLine(value) && Trimmed(value) && Validate(name, value, level).None?
  }

  predicate AllClean(options: Options, level: Level) {
    forall k :: k in options ==> Clean(k, options[k], level)
  }

  lemma ColonAt(name: string, rest: string)
    requires Find(name, ":").None?
    ensures Find(name + ":" + rest, ":") == Some(|name|)
  {
    var s := name + ":" + rest;
    assert At(s, ":", |name|);
    forall i: nat | i < |name|
      ensures !At(s, ":", i)
    {
      assert !At(name, ":", i);
      assert name[i..i + 1] == s[i..i + 1];
    }
  }

  /** A name, a colon, any blanks and a value read as that option. */
  lemma SpacedOption(name: string, gap: string, value: string, level: Level, options: Options)
    requires Trimmed(name) && Lower(name) == name && Find(name, ":").None?
    requires AllBlank(gap) && Trimmed(value) && Validate(name, value, level).None?
    ensures ParseOption(name + ":" + (gap + value), level, options) == Ok(options[name := value])
  {
    hide Validate, Find, Lower, Trim;
    var line := name + ":" + (gap + value);
    ColonAt(name, gap + value);
    assert line[..|name|] == name && line[|name| + 1..] == gap + value;
    assert [] + name == name;
    TrimTrimmed([], name);
    TrimTrimmed(gap, value);
  }

  /** A printed option line reads back as that option. */
  lemma OptionRoundTrip(name: string, value: string, level: Level, options: Options)
    requires Clean(name, value, level)
    ensures ParseOption(OptionLine(name, value), level, options) == Ok(options[name := value])
  {
    hide Validate, Find, Lower, Trim, ParseOption;
    assert OptionLine(name, value) == name + ":" + (" " + value);
    SpacedOption(name, " ", value, level, options);
  }

  ghost function Selected(options: Options, names: seq<string>): Options {
    map k | k in options && k in names :: options[k]
  }

  lemma SelectNone(options: Options)
    ensures Selected(options, []) == map[]
  {
  }

  lemma SelectFirst(options: Options, names: seq<string>, start: Options)
    requires names != [] && names[0] in options
    ensures start[names[0] := options[names[0]]] + Selected(options, names[1..]) == start + Selected(options, names)
  {
    assert names == [names[0]] + names[1..];
  }

  lemma OptionLinesTail(options: Options, order: seq<string>)
    requires order != [] && forall k :: k in order ==> k in options
    ensures OptionLines(options, order)[1..] == OptionLines(options, order[1..])
  {
    hide OptionLine;
  }

  lemma {:induction false} OptionsRoundTrip(options: Options, order: seq<string>, level: Level, start: Options)
    requires forall k :: k in order ==> k in options && Clean(k, options[k], level)
    ensures ParseOptions(OptionLines(options, order), level, start) ==
            Ok(start + Selected(options, order))
    decreases |order|
  {
    hide Clean, ParseOption, OptionLine, Selected;
    if order == [] {
      SelectNone(options);
      assert start + Selected(options, order) == start;
    } else {
      var k := order[0];
      OptionRoundTrip(k, options[k], level, start);
      OptionLinesTail(options, order);
      SelectFirst(options, order, start);
      OptionsRoundTrip(options, order[1..], level, start[k := options[k]]);
    }
  }

  lemma OptionLineIsOneLine(name: string, value: string)
    requires OneLine(name) && OneLine(value)
    ensures OneLine(OptionLine(name, value)) && OptionLine(name, value) != []
  {
  }

  /** Printed lines, without the line end of the last, split into the lines. */
  lemma {:induction false} LinesSplit(head: string, lines: seq<string>)
    requires OneLine(head) && forall i :: 0 <= i < |lines| ==> OneLine(lines[i]) && lines[i] != []
    ensures
      var text := head + CRLF + Lines(lines);
      && |text| >= 2
      && Split(text[..|text| - 2], IsBreak) == [head] + lines
    decreases |lines|
  {
    hide Split, Lines;
    LinesUnfold(lines);
    if lines == [] {
      assert (head + CRLF)[..|head|] == head && head + CRLF + "" == head + CRLF;
      SplitWhole(head, IsBreak);
    } else {
      var rest := lines[0] + CRLF + Lines(lines[1..]);
      LinesSplit(lines[0], lines[1..]);
      CutLast(head, rest);
      var cut := rest[..|rest| - 2];
      assert cut[0] == lines[0][0] && !IsBreak(cut[0]);
      SplitField(head, CRLF, cut, IsBreak);
      assert [lines[0]] + lines[1..] == lines;
    }
  }

  /** Printed lines and what comes after them split apart. */
  lemma {:induction false} SplitLines(head: string, lines: seq<string>, rest: string)
    requires OneLine(head) && forall i :: 0 <= i < |lines| ==> OneLine(lines[i]) && lines[i] != []
    requires rest != "" && !IsBreak(rest[0])
    ensures Split(head + CRLF + (Lines(lines) + rest), IsBreak) == [head] + (lines + Split(rest, IsBreak))
    decreases |lines|
  {
    hide Split, Lines;
    LinesUnfold(lines);
    if lines == [] {
      assert "" + rest == rest && [] + Split(rest, IsBreak) == Split(rest, IsBreak);
      SplitField(head, CRLF, rest, IsBreak);
    } else {
      var more := lines[0] + CRLF + (Lines(lines[1..]) + rest);
      SplitLines(lines[0], lines[1..], rest);
      assert Lines(lines) + rest == more && more[0] == lines[0][0];
      SplitField(head, CRLF, more, IsBreak);
      assert [lines[0]] + (lines[1..] + Split(rest, IsBreak)) == lines + Split(rest, IsBreak);
    }
  }

  lemma {:induction false} LinesConcat(a: seq<string>, b: seq<string>)
    ensures Lines(a + b) == Lines(a) + Lines(b)
    decreases |a|
  {
    hide Lines;
    LinesUnfold(a);
    LinesUnfold(a + b);
    if a == [] {
      assert a + b == b;
    } else {
      LinesConcat(a[1..], b);
      assert (a + b)[1..] == a[1..] + b;
      assert a[0] + CRLF + (Lines(a[1..]) + Lines(b)) == a[0] + CRLF + Lines(a[1..]) + Lines(b);
    }
  }

  lemma {:induction false} ParseOptionsConcat(a: seq<string>, b: seq<string>, level: Level, start: Options)
    requires ParseOptions(a, level, start).Ok?
    ensures ParseOptions(a + b, level, start) == ParseOptions(b, level, ParseOptions(a, level, start).value)
    decreases |a|
  {
    hide ParseOption;
    if a == [] {
      assert a + b == b;
    } else {
      assert (a + b)[1..] == a[1..] + b;
      ParseOptionsConcat(a[1..], b, level, ParseOption(a[0], level, start).value);
    }
  }

  lemma LinesUnfold(lines: seq<string>)
    ensures Lines(lines) == if lines == [] then "" else lines[0] + CRLF + Lines(lines[1..])
  {
  }

  lemma CutLast(head: string, rest: string)
    requires |rest| >= 2
    ensures
      var text := head + CRLF + rest;
      text[..|text| - 2] == head + CRLF + rest[..|rest| - 2] && text[|text| - 2..] == rest[|rest| - 2..]
  {
  }

  /** Parsing a dumped header without its final blank line restores the head line and every option. */
  lemma HeaderRoundTrip(head: string, options: Options, order: seq<string>, level: Level)
    requires OneLine(head) && AllClean(options, level) && Enumerates(order, options)
    ensures
      var text := Dump(head, options, order);
      && |text| >= 4 && text[|text| - 4..] == CRLF + CRLF
      && Parse(text[..|text| - 4], level) == Ok(Header(head, INITIAL + options))
      && ("connection" in options ==> INITIAL + options == options)
  {
    hide Clean, ParseOption, ParseOptions, OptionLine, Lines, Split, Trimmed, OneLine;
    var text := Dump(head, options, order);
    var lines := OptionLines(options, order);
    forall i | 0 <= i < |lines|
      ensures OneLine(lines[i]) && lines[i] != []
    {
      assert order[i] in order;
      CleanIsOneLine(order[i], options[order[i]], level);
    }
    LinesSplit(head, lines);
    LinesEnd(head, lines);
    CutDump(head + CRLF + Lines(lines));
    assert ([head] + lines)[1..] == lines;
    OptionsRoundTrip(options, order, level, INITIAL);
    assert Selected(options, order) == options;
  }

  lemma CleanIsOneLine(name: string, value: string, level: Level)
    requires Clean(name, value, level)
    ensures OneLine(OptionLine(name, value)) && OptionLine(name, value) != []
  {
    hide Validate, Find, Lower;
    OptionLineIsOneLine(name, value);
  }

  lemma CutDump(body: string)
    requires |body| >= 2 && body[|body| - 2..] == CRLF
    ensures
      var text := body + CRLF;
      text[..|text| - 4] == body[..|body| - 2] && text[|text| - 4..] == CRLF + CRLF
  {
  }

  lemma {:induction false} LinesEnd(head: string, lines: seq<string>)
    ensures
      var text := head + CRLF + Lines(lines);
      |text| >= 2 && text[|text| - 2..] == CRLF
    decreases |lines|
  {
    if lines != [] {
      var rest := lines[0] + CRLF + Lines(lines[1..]);
      LinesEnd(lines[0], lines[1..]);
      CutLast(head, rest);
    }
  }
}
