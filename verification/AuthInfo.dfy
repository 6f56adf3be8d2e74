/** The authorization option: base64 inside a header line. */
module AuthInfo {
  import opened Results
  import opened Text
  import opened HttpHeader
  import opened Base64
  import opened Base64Laws

  type Bytes = seq<Byte>

  const COLON: Byte := 58

  function Credentials(user: Bytes, password: Bytes): Bytes {
    user + [COLON] + password
  }

  /** The value `set_authinfo` gives the option. */
  function AuthValue(user: Bytes, password: Bytes): string {
    "Basic " + Encode(Credentials(user, password))
  }

  /** `boost::split` without compression. */
  function SplitEach(s: string, sep: char -> bool): (fields: seq<string>)
    ensures fields != []
    decreases |s|
  {
    var n := FieldLength(s, sep);
    if n == |s| then [s] else [s[..n]] + SplitEach(s[n + 1..], sep)
  }

  predicate IsGap(c: char) {
    c == ' ' || c == '\t'
  }

  datatype AuthError = Unauthorized | MalformedCredentials | NoColon

  function ColonAtByte(data: Bytes): (i: nat)
    ensures i <= |data| && COLON !in data[..i] && (i < |data| ==> data[i] == COLON)
  {
    if data == [] || data[0] == COLON then 0 else 1 + ColonAtByte(data[1..])
  }

  /** `get_authinfo`.  What the C++ code answers for data without a colon depends on the width of its
      integers, and is not modelled. */
  function GetAuthInfo(value: string): Result<(Bytes, Bytes), AuthError> {
    var v := SplitEach(value, IsGap);
    if |v| != 2 || Lower(v[0]) != "basic" then
      Err(Unauthorized)
    else
      match Decode(v[1])
      case Err(_) => Err(MalformedCredentials)
      case Ok(data) =>
        var i := ColonAtByte(data);
        if i == |data| then Err(NoColon) else Ok((data[..i], data[i + 1..]))
  }

  lemma BasicIsWord()
    ensures Whole("Basic", IsGap) && Lower("Basic") == "basic"
  {
    assert Lower("Basic") == ['b', 'a', 's', 'i', 'c'];
  }

  lemma {:induction false} ColonAfter(user: Bytes, rest: Bytes)
    requires COLON !in user
    ensures ColonAtByte(user + [COLON] + rest) == |user|
  {
    if user != [] {
      assert (user + [COLON] + rest)[1..] == user[1..] + [COLON] + rest;
      ColonAfter(user[1..], rest);
    }
  }

  /** In memory the credentials come back exactly if the user's name holds no colon. */
  lemma CredentialsRoundTrip(user: Bytes, password: Bytes)
    ensures GetAuthInfo(AuthValue(user, password)) == Ok((user, password)) <==> COLON !in user
  {
    hide Encode, Decode, Lower, ColonAtByte;
    var data := Credentials(user, password);
    var e := Encode(data);
    OneLineUpTo48(data);
    BasicIsWord();
    assert Whole(e, IsGap);
    assert AuthValue(user, password) == "Basic" + (" " + e);
    FieldLengthOver("Basic", " " + e, IsGap);
    assert ("Basic" + (" " + e))[..5] == "Basic" && ("Basic" + (" " + e))[6..] == e;
    FieldLengthOver(e, "", IsGap);
    assert e + "" == e;
    assert SplitEach(e, IsGap) == [e];
    assert SplitEach(AuthValue(user, password), IsGap) == ["Basic", e];
    Base64RoundTrip(data);
    assert data[|user|] == COLON;
    if COLON !in user {
      ColonAfter(user, password);
      assert data[..|user|] == user && data[|user| + 1..] == password;
    }
  }

  // ----- Which options give credentials -----

  /** `value` is two words, set apart by one blank or tab. */
  ghost predicate TwoWords(value: string, first: string, second: string) {
    && ' ' !in first && '\t' !in first && ' ' !in second && '\t' !in second
    && (value == first + " " + second || value == first + "\t" + second)
  }

  lemma {:induction false} TwoWordsSplit(value: string, first: string, second: string)
    ensures TwoWords(value, first, second) <==> SplitEach(value, IsGap) == [first, second]
  {
    if TwoWords(value, first, second) {
      var gap := if value == first + " " + second then " " else "\t";
      assert value == first + (gap + second);
      FieldLengthOver(first, gap + second, IsGap);
      FieldLengthOver(second, "", IsGap);
      assert second + "" == second;
      assert value[..|first|] == first && value[|first| + 1..] == second;
    }
    if SplitEach(value, IsGap) == [first, second] {
      WordsOfSplit(value, first, second);
    }
  }

  lemma WordsOfSplit(value: string, first: string, second: string)
    requires SplitEach(value, IsGap) == [first, second]
    ensures TwoWords(value, first, second)
  {
    var n := FieldLength(value, IsGap);
    var v := SplitEach(value, IsGap);
    assert n == |value| ==> |v| == 1;
    var rest := value[n + 1..];
    assert v == [value[..n]] + SplitEach(rest, IsGap);
    assert v[0] == value[..n] && v[1..] == SplitEach(rest, IsGap);
    assert v[1..] == [second];
    assert FieldLength(rest, IsGap) == |rest|;
    assert SplitEach(rest, IsGap)[0] == rest;
    assert value == first + [value[n]] + second;
  }

  /** An option gives credentials exactly if it is two words, the first "basic" in any case, the second the
      base64 text of the name, a colon and the password, the name without a colon. */
  lemma GetAuthInfoExactly(value: string, user: Bytes, password: Bytes)
    ensures GetAuthInfo(value) == Ok((user, password)) <==>
            && COLON !in user
            && exists scheme, text ::
                 && TwoWords(value, scheme, text) && Lower(scheme) == "basic"
                 && Decode(text) == Ok(user + [58] + password)
  {
    hide Decode, Lower, ColonAtByte, SplitEach;
    var v := SplitEach(value, IsGap);
    if |v| == 2 {
      assert v == [v[0], v[1]];
      TwoWordsSplit(value, v[0], v[1]);
    }
    forall scheme, text | TwoWords(value, scheme, text)
      ensures v == [scheme, text]
    {
      TwoWordsSplit(value, scheme, text);
    }
    if COLON !in user {
      ColonAfter(user, password);
      assert (user + [COLON] + password)[..|user|] == user && (user + [COLON] + password)[|user| + 1..] == password;
    }
    if GetAuthInfo(value).Ok? {
      var data := Decode(v[1]).value;
      var i := ColonAtByte(data);
      assert data == data[..i] + [58] + data[i + 1..];
    }
  }

  /** Every option of another shape, or of another scheme, is refused as unauthorized. */
  lemma OtherSchemeRefused(value: string)
    ensures GetAuthInfo(value) == Err(Unauthorized) <==>
            forall scheme, text :: TwoWords(value, scheme, text) ==> Lower(scheme) != "basic"
  {
    hide Decode, Lower, ColonAtByte, SplitEach;
    var v := SplitEach(value, IsGap);
    if |v| == 2 {
      assert v == [v[0], v[1]];
      TwoWordsSplit(value, v[0], v[1]);
    }
    forall scheme, text | TwoWords(value, scheme, text)
      ensures v == [scheme, text]
    {
      TwoWordsSplit(value, scheme, text);
    }
  }

  // ----- In a header -----

  const AUTHORIZATION := "authorization"

  lemma NameIsLetters()
    ensures |AUTHORIZATION| == 13 && forall k :: 0 <= k < 13 ==> 'a' <= AUTHORIZATION[k] <= 'z'
  {
  }

  lemma NameIsClean()
    ensures OneLine(AUTHORIZATION) && Trimmed(AUTHORIZATION) && Lower(AUTHORIZATION) == AUTHORIZATION
    ensures Find(AUTHORIZATION, ":").None?
    ensures forall v, level :: Validate(AUTHORIZATION, v, level).None?
  {
    hide Find, Lower;
    NameIsLetters();
    LowerKeeps(AUTHORIZATION);
    NotFound(AUTHORIZATION, ":", ':');
  }

  /** The option meets the conditions for printing exactly if name, colon and password are at most 48 bytes:
      the encoding of more contains a line break. */
  lemma CleanUpTo48(user: Bytes, password: Bytes, level: Level)
    ensures Clean(AUTHORIZATION, AuthValue(user, password), level) <==> |user| + |password| + 1 <= 48
  {
    hide Encode, Find, Lower, Validate;
    var data := Credentials(user, password);
    var e := Encode(data);
    var value := AuthValue(user, password);
    NameIsClean();
    OneLineUpTo48(data);
    EncodeNotEmpty(data);
    assert value == "Basic " + e;
    assert value[|value| - 1] == e[|e| - 1];
    EncodeEnds(data);
    if '\n' in e {
      var k :| 0 <= k < |e| && e[k] == '\n';
      assert value[6 + k] == '\n';
    } else {
      assert forall i :: 6 <= i < |value| ==> value[i] == e[i - 6];
    }
  }

  lemma EncodeNotEmpty(d: Bytes)
    requires d != []
    ensures Encode(d) != ""
  {
    EncodedText(d);
    CharsShape(d);
    WrapLength("", Chars(d));
  }

  /** An encoding ends with a character, not with a break. */
  lemma EncodeEnds(d: Bytes)
    requires d != []
    ensures Encode(d) != "" && !IsBlank(Encode(d)[|Encode(d)| - 1])
  {
    EncodedText(d);
    CharsShape(d);
    assert BrokenAt64("");
    WrapBreaks("", Chars(d));
    WrapLength("", Chars(d));
    PaddingNotBlank(|d|);
    OneLineUpTo48(d);
  }

  // ----- A header with long credentials -----

  /** A long encoding is broken after 64 characters. */
  lemma FirstBreak(d: Bytes) returns (line: string, rest: string)
    requires |d| > 48
    ensures Encode(d) == line + "\n" + rest && OneLine(line)
    ensures rest != "" && !IsBreak(rest[0]) && Find(rest, ":").None?
  {
    hide Encode, Find, Chars, Wrap;
    var e := Encode(d);
    var w := Wrap("", Chars(d));
    EncodedText(d);
    CharsShape(d);
    assert BrokenAt64("");
    WrapBreaks("", Chars(d));
    WrapLength("", Chars(d));
    OneLineUpTo48(d);
    assert forall k :: 0 <= k < 66 ==> e[k] == w[k];
    assert forall k :: 0 <= k < 64 ==> !IsBreak(e[k]);
    line, rest := e[..64], e[65..];
    assert rest[0] == e[65] && !IsBreak(e[65]);
    forall k | 0 <= k < |rest|
      ensures rest[k] != ':'
    {
      assert rest[k] == e[65 + k];
    }
    NotFound(rest, ":", ':');
  }

  /** After the line break the option goes on in a line of its own, which has no colon. */
  lemma BrokenValue(user: Bytes, password: Bytes) returns (first: string, second: string)
    requires |user| + |password| + 1 > 48
    ensures OptionLine(AUTHORIZATION, AuthValue(user, password)) == first + "\n" + second
    ensures OneLine(first) && Find(first, ":") == Some(|AUTHORIZATION|)
    ensures |first| > |AUTHORIZATION| && first[..|AUTHORIZATION|] == AUTHORIZATION
    ensures second != "" && !IsBreak(second[0]) && Find(second, ":").None?
  {
    hide Encode, Find;
    var line, rest := FirstBreak(Credentials(user, password));
    NameIsClean();
    ColonAt(AUTHORIZATION, " Basic " + line);
    first, second := AUTHORIZATION + ":" + (" Basic " + line), rest;
    assert OptionLine(AUTHORIZATION, AuthValue(user, password)) == first + "\n" + second;
  }

  lemma SplitFirst(s: string)
    ensures Split(s, IsBreak)[0] == s[..FieldLength(s, IsBreak)]
  {
    assert s[..|s|] == s;
  }

  /** The first field of a text that goes on with a line end, or ends, after `s`. */
  lemma FieldWithin(s: string, rest: string)
    requires s != "" && !IsBreak(s[0]) && (rest == "" || IsBreak(rest[0])) && Find(s, ":").None?
    ensures Find(Split(s + rest, IsBreak)[0], ":").None?
  {
    hide Find;
    var n := FieldLength(s + rest, IsBreak);
    if rest != "" {
      assert (s + rest)[|s|] == rest[0];
    }
    assert n <= |s|;
    SplitFirst(s + rest);
    assert (s + rest)[..n] == s[..n];
    FindInPrefix(s, ":", n);
  }

  lemma TwoLinesFail(first: string, second: string, more: seq<string>, level: Level, start: Options)
    requires Find(first, ":") == Some(|AUTHORIZATION|) && first[..|AUTHORIZATION|] == AUTHORIZATION
    requires Find(second, ":").None?
    ensures ParseOptions([first, second] + more, level, start) == Err(MalformedPacket)
  {
    hide Find, Lower, Validate;
    NameIsClean();
    TrimTrimmed("", AUTHORIZATION);
    assert "" + AUTHORIZATION == AUTHORIZATION;
    var lines := [first, second] + more;
    assert lines[1..] == [second] + more;
    assert ParseOption(first, level, start).Ok?;
    assert ParseOption(second, level, ParseOption(first, level, start).value) == Err(MalformedPacket);
  }

  /** Credentials of more than 48 bytes make a printed header malformed, wherever the option stands and
      whatever options come after it, if those before it survive printing. */
  lemma LongCredentialsUnreadable(
      head: string, options: Options, order: seq<string>, at: nat, level: Level, user: Bytes, password: Bytes)
    requires OneLine(head) && Enumerates(order, options) && at < |order| && order[at] == AUTHORIZATION
    requires forall j :: 0 <= j < at ==> Clean(order[j], options[order[j]], level)
    requires options[AUTHORIZATION] == AuthValue(user, password) && |user| + |password| + 1 > 48
    ensures
      var text := Dump(head, options, order);
      |text| >= 4 && Parse(text[..|text| - 4], level) == Err(MalformedPacket)
  {
    hide Find, Lower, Validate, Encode, AuthValue, ParseOptions, ParseOption, Split, Lines, OptionLine, Clean, OneLine,
      IsBreak;
    var lines := OptionLines(options, order);
    var before, after := lines[..at], lines[at + 1..];
    assert lines == before + ([lines[at]] + after);
    assert lines[at] == OptionLine(AUTHORIZATION, options[AUTHORIZATION]);
    assert before == OptionLines(options, order[..at]);
    LinesBefore(options, order[..at], level);
    var first, second := BrokenValue(user, password);
    LinesAround(head, before, lines[at], after);
    LinesTail(after);
    var tail := CRLF + Lines(after) + CRLF;
    CutText(head + CRLF, Lines(before), first, second, tail);
    BrokenLinesFail(head, before, first, second, tail[..|tail| - 4], level);
  }

  lemma LinesAround(head: string, before: seq<string>, line: string, after: seq<string>)
    ensures head + CRLF + Lines(before + ([line] + after)) + CRLF ==
            head + CRLF + (Lines(before) + (line + (CRLF + Lines(after) + CRLF)))
  {
    hide Lines;
    LinesConcat(before, [line] + after);
    LinesUnfold([line] + after);
    assert ([line] + after)[1..] == after;
  }

  /** The lines of clean options are read without an error. */
  lemma LinesBefore(options: Options, order: seq<string>, level: Level)
    requires forall k :: k in order ==> k in options && Clean(k, options[k], level)
    ensures ParseOptions(OptionLines(options, order), level, INITIAL).Ok?
    ensures forall i :: 0 <= i < |order| ==>
              OneLine(OptionLines(options, order)[i]) && OptionLines(options, order)[i] != []
  {
    hide Clean, ParseOptions, OptionLine;
    OptionsRoundTrip(options, order, level, INITIAL);
    forall i | 0 <= i < |order|
      ensures OneLine(OptionLine(order[i], options[order[i]])) && OptionLine(order[i], options[order[i]]) != []
    {
      assert order[i] in order;
      CleanIsOneLine(order[i], options[order[i]], level);
    }
  }

  lemma BrokenLinesFail(
      head: string, before: seq<string>, first: string, second: string, cut: string, level: Level)
    requires OneLine(head) && OneLine(first)
    requires forall i :: 0 <= i < |before| ==> OneLine(before[i]) && before[i] != []
    requires ParseOptions(before, level, INITIAL).Ok?
    requires Find(first, ":") == Some(|AUTHORIZATION|)
    requires |first| > |AUTHORIZATION| && first[..|AUTHORIZATION|] == AUTHORIZATION
    requires second != "" && !IsBreak(second[0]) && Find(second, ":").None?
    requires cut == "" || cut[0] == '\r'
    ensures Parse(head + CRLF + (Lines(before) + (first + "\n" + (second + cut))), level) == Err(MalformedPacket)
  {
    hide Find, ParseOptions, Split, Lines;
    var rest := first + "\n" + (second + cut);
    assert rest[0] == first[..|AUTHORIZATION|][0] == 'a';
    SplitField(first, "\n", second + cut, IsBreak);
    FieldWithin(second, cut);
    var fields := Split(second + cut, IsBreak);
    assert [first] + fields == [first, fields[0]] + fields[1..];
    SplitLines(head, before, rest);
    var lines := before + ([first, fields[0]] + fields[1..]);
    assert ([head] + lines)[1..] == lines;
    var start := ParseOptions(before, level, INITIAL).value;
    ParseOptionsConcat(before, [first, fields[0]] + fields[1..], level, INITIAL);
    TwoLinesFail(first, fields[0], fields[1..], level, start);
  }

  lemma CutText(head: string, before: string, first: string, second: string, tail: string)
    requires |tail| >= 4
    ensures
      var text := head + (before + ((first + "\n" + second) + tail));
      text[..|text| - 4] == head + (before + (first + "\n" + (second + tail[..|tail| - 4])))
  {
  }

  lemma LinesTail(lines: seq<string>)
    ensures
      var tail := CRLF + Lines(lines) + CRLF;
      |tail| >= 4 && (|tail| > 4 ==> tail[0] == '\r')
  {
  }

  // ----- What the receiver gets -----

  /** What `get_authinfo` of the printed and parsed header gives, if there is a header at all. */
  function ReadBack(read: Result<Header, HttpError>): Result<(Bytes, Bytes), AuthError> {
    if read.Ok? && AUTHORIZATION in read.value.options then
      GetAuthInfo(read.value.options[AUTHORIZATION])
    else
      Err(Unauthorized)
  }

  /** If its other options survive printing, a header with credentials can be read exactly if name, colon and
      password are at most 48 bytes; and the receiver gets the credentials exactly if, besides, the name
      holds no colon. */
  lemma CredentialsArriveExactly(
      head: string, options: Options, order: seq<string>, level: Level, user: Bytes, password: Bytes)
    requires OneLine(head) && Enumerates(order, options)
    requires AUTHORIZATION in options && options[AUTHORIZATION] == AuthValue(user, password)
    requires forall k :: k in options && k != AUTHORIZATION ==> Clean(k, options[k], level)
    ensures
      var text := Dump(head, options, order);
      && |text| >= 4
      && var read := Parse(text[..|text| - 4], level);
         && (read == Ok(Header(head, INITIAL + options)) <==> |user| + |password| + 1 <= 48)
         && (read == Err(MalformedPacket) <==> |user| + |password| + 1 > 48)
         && (ReadBack(read) == Ok((user, password)) <==> |user| + |password| + 1 <= 48 && COLON !in user)
  {
    hide Find, Lower, Validate, Encode, AuthValue, Parse, Clean, Dump, GetAuthInfo, OneLine;
    if |user| + |password| + 1 <= 48 {
      CleanUpTo48(user, password, level);
      HeaderRoundTrip(head, options, order, level);
      CredentialsRoundTrip(user, password);
    } else {
      assert AUTHORIZATION in order;
      var at :| 0 <= at < |order| && order[at] == AUTHORIZATION;
      forall j | 0 <= j < at
        ensures Clean(order[j], options[order[j]], level)
      {
        assert order[j] in order;
      }
      LongCredentialsUnreadable(head, options, order, at, level, user, password);
    }
  }

  /** In a header with no other option they arrive under the same condition. */
  lemma CredentialsAlone(head: string, level: Level, user: Bytes, password: Bytes)
    requires OneLine(head)
    ensures
      var text := Dump(head, map[AUTHORIZATION := AuthValue(user, password)], [AUTHORIZATION]);
      && |text| >= 4
      && (ReadBack(Parse(text[..|text| - 4], level)) == Ok((user, password))
          <==> |user| + |password| + 1 <= 48 && COLON !in user)
  {
    hide AuthValue, Parse, Dump, Clean, ReadBack, OneLine;
    CredentialsArriveExactly(
      head, map[AUTHORIZATION := AuthValue(user, password)], [AUTHORIZATION], level, user, password);
  }
}
