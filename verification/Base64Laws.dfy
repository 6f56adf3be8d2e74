/** The base64 codec against the standard: bits, padding, lines, and the way back. */
module Base64Laws {
  import opened Results
  import opened Text
  import opened Base64

  // ----- The alphabet -----

  lemma AlphabetIndex(idx: int)
    requires 0 <= idx < 64
    ensures GetIdx(Alpha(idx)) == Ok(idx)
    ensures !IsBlank(Alpha(idx)) && Alpha(idx) != '=' && Alpha(idx) != ':'
  {
  }

  // ----- The text without line breaks -----

  /** The three bytes of a group as one number; bytes that are missing count as zero. */
  function GroupWord(d: seq<Byte>, i: nat): nat
    requires i < |d|
  {
    d[i] as int * 0x10000
    + (if i + 1 < |d| then d[i + 1] as int * 0x100 else 0)
    + (if i + 2 < |d| then d[i + 2] as int else 0)
  }

  /** The alphabet characters of the encoding, by groups of three bytes. */
  function Chars(d: seq<Byte>): string {
    if d == [] then
      ""
    else
      var c := GroupWord(d, 0);
      if |d| == 1 then
        [Alpha(Six(c, 0x40000)), Alpha(Six(c, 0x1000))]
      else if |d| == 2 then
        [Alpha(Six(c, 0x40000)), Alpha(Six(c, 0x1000)), Alpha(Six(c, 0x40))]
      else
        [Alpha(Six(c, 0x40000)), Alpha(Six(c, 0x1000)), Alpha(Six(c, 0x40)), Alpha(Six(c, 1))] + Chars(d[3..])
  }

  function Padding(n: nat): string {
    if n % 3 == 1 then "==" else if n % 3 == 2 then "=" else ""
  }

  /** Characters put out one by one, with line breaks. */
  function Wrap(out: string, cs: string): string
    decreases |cs|
  {
    if cs == "" then
      out
    else
      Wrap(PutChar(out, cs[0]), cs[1..])
  }

  lemma WrapOne(out: string, idx: int, cs: string)
    requires 0 <= idx < 64
    ensures Wrap(out, [Alpha(idx)] + cs) == Wrap(AddChar(out, idx), cs)
  {
    hide Alpha;
    assert ([Alpha(idx)] + cs)[1..] == cs;
  }

  /** One turn of the loop of `encode`, on the whole group at once. */
  lemma EncodeGroup(out: string, d: seq<Byte>, i: nat)
    requires i < |d|
    ensures
      var c := GroupWord(d, i);
      var out2 := AddChar(AddChar(out, Six(c, 0x40000)), Six(c, 0x1000));
      var out3 := AddChar(out2, Six(c, 0x40));
      EncodeFrom(out, d, i) ==
      if |d| - i == 1 then out2 + "=="
      else if |d| - i == 2 then out3 + "="
      else EncodeFrom(AddChar(out3, Six(c, 1)), d, i + 3)
  {
    hide AddChar, Six;
    UpperSixes(d, i);
  }

  lemma CharsGroup(d: seq<Byte>, i: nat)
    requires i < |d|
    ensures
      var c := GroupWord(d, i);
      var a1, a2, a3, a4 := Alpha(Six(c, 0x40000)), Alpha(Six(c, 0x1000)), Alpha(Six(c, 0x40)), Alpha(Six(c, 1));
      Chars(d[i..]) ==
      if |d| - i == 1 then [a1, a2]
      else if |d| - i == 2 then [a1, a2, a3]
      else [a1, a2, a3, a4] + Chars(d[i + 3..])
  {
    hide Alpha, Six;
    assert GroupWord(d[i..], 0) == GroupWord(d, i);
    if |d| - i >= 3 {
      assert d[i..][3..] == d[i + 3..];
    }
  }

  /** `encode` puts out the standard's characters, wrapped, and then the padding. */
  lemma {:induction false} EncodeIsWrapped(out: string, d: seq<Byte>, i: nat)
    requires i <= |d|
    ensures EncodeFrom(out, d, i) == Wrap(out, Chars(d[i..])) + Padding(|d| - i)
    decreases |d| - i
  {
    hide Alpha, Six, AddChar, Wrap, GroupWord;
    if i == |d| {
      WrapNone(out);
      assert out + "" == out;
    } else {
      hide EncodeFrom, Chars;
      var c := GroupWord(d, i);
      var x1, x2, x3, x4 := Six(c, 0x40000), Six(c, 0x1000), Six(c, 0x40), Six(c, 1);
      EncodeGroup(out, d, i);
      CharsGroup(d, i);
      if |d| - i < 3 {
        WrapFour(out, x1, x2, x3, x4, "");
      } else {
        WrapFour(out, x1, x2, x3, x4, Chars(d[i + 3..]));
        EncodeIsWrapped(AddChar(AddChar(AddChar(AddChar(out, x1), x2), x3), x4), d, i + 3);
        assert (|d| - i) % 3 == (|d| - (i + 3)) % 3;
      }
    }
  }

  lemma WrapNone(out: string)
    ensures Wrap(out, "") == out
  {
  }

  lemma WrapFour(out: string, x1: int, x2: int, x3: int, x4: int, rest: string)
    requires 0 <= x1 < 64 && 0 <= x2 < 64 && 0 <= x3 < 64 && 0 <= x4 < 64
    ensures Wrap(out, [Alpha(x1), Alpha(x2)]) == AddChar(AddChar(out, x1), x2)
    ensures Wrap(out, [Alpha(x1), Alpha(x2), Alpha(x3)]) == AddChar(AddChar(AddChar(out, x1), x2), x3)
    ensures Wrap(out, [Alpha(x1), Alpha(x2), Alpha(x3), Alpha(x4)] + rest) ==
            Wrap(AddChar(AddChar(AddChar(AddChar(out, x1), x2), x3), x4), rest)
  {
    hide Alpha, AddChar, Wrap;
    var o1 := AddChar(out, x1);
    var o2 := AddChar(o1, x2);
    var o3 := AddChar(o2, x3);
    var a1, a2, a3, a4 := Alpha(x1), Alpha(x2), Alpha(x3), Alpha(x4);
    assert [a1, a2] == [a1] + ([a2] + "");
    assert [a1, a2, a3] == [a1] + ([a2] + ([a3] + ""));
    assert [a1, a2, a3, a4] + rest == [a1] + ([a2] + ([a3] + ([a4] + rest)));
    WrapOne(out, x1, [a2] + "");
    WrapOne(out, x1, [a2] + ([a3] + ""));
    WrapOne(out, x1, [a2] + ([a3] + ([a4] + rest)));
    WrapOne(o1, x2, "");
    WrapOne(o1, x2, [a3] + "");
    WrapOne(o1, x2, [a3] + ([a4] + rest));
    WrapOne(o2, x3, "");
    WrapOne(o2, x3, [a4] + rest);
    WrapOne(o3, x4, rest);
    WrapNone(o2);
    WrapNone(o3);
  }

  /** The early characters of a group do not depend on its later bytes. */
  lemma UpperSixes(d: seq<Byte>, i: nat)
    requires i < |d|
    ensures
      var b0 := d[i] as int * 0x10000;
      && (i + 1 < |d| ==>
            var b1 := d[i + 1] as int * 0x100;
            && Six(b0, 0x40000) == Six(b0 + b1, 0x40000)
            && (i + 2 < |d| ==>
                  var b2 := d[i + 2] as int;
                  && Six(b0, 0x40000) == Six(b0 + b1 + b2, 0x40000)
                  && Six(b0 + b1, 0x1000) == Six(b0 + b1 + b2, 0x1000)))
  {
    hide Six;
    GroupBack(d[i], 0, 0);
    if i + 1 < |d| {
      GroupBack(d[i], d[i + 1], 0);
      if i + 2 < |d| {
        GroupBack(d[i], d[i + 1], d[i + 2]);
      }
    }
  }

  // ----- The way back -----

  lemma {:induction false} WithoutBlanksConcat(a: string, b: string)
    ensures WithoutBlanks(a + b) == WithoutBlanks(a) + WithoutBlanks(b)
  {
    if a == "" {
      assert a + b == b;
    } else {
      assert (a + b)[1..] == a[1..] + b;
      WithoutBlanksConcat(a[1..], b);
    }
  }

  ghost predicate NoBlanks(s: string) {
    forall i :: 0 <= i < |s| ==> !IsBlank(s[i])
  }

  lemma {:induction false} NothingToDrop(s: string)
    requires NoBlanks(s)
    ensures WithoutBlanks(s) == s
  {
    if s != "" {
      NothingToDrop(s[1..]);
      assert s == [s[0]] + s[1..];
    }
  }

  lemma PutDropped(out: string, c: char)
    requires !IsBlank(c)
    ensures WithoutBlanks(PutChar(out, c)) == WithoutBlanks(out) + [c]
  {
    WithoutBlanksConcat(out, "\n");
    WithoutBlanksConcat(out + "\n", [c]);
    WithoutBlanksConcat(out, [c]);
    assert WithoutBlanks("\n") == "" && WithoutBlanks([c]) == [c];
  }

  /** Skipping white space undoes the line breaks. */
  lemma {:induction false} WrapDropped(out: string, cs: string)
    requires NoBlanks(cs)
    ensures WithoutBlanks(Wrap(out, cs)) == WithoutBlanks(out) + cs
    decreases |cs|
  {
    hide IsBlank, PutChar, WithoutBlanks;
    if cs == "" {
      assert WithoutBlanks(out) + cs == WithoutBlanks(out);
    } else {
      PutDropped(out, cs[0]);
      WrapDropped(PutChar(out, cs[0]), cs[1..]);
      assert WithoutBlanks(out) + [cs[0]] + cs[1..] == WithoutBlanks(out) + cs;
    }
  }

  /** The number of characters before the padding, and that they are never blank or padding. */
  lemma {:induction false} CharsShape(d: seq<Byte>)
    ensures |Chars(d)| == |d| / 3 * 4 + (if |d| % 3 == 0 then 0 else |d| % 3 + 1)
    ensures NoBlanks(Chars(d)) && forall i :: 0 <= i < |Chars(d)| ==> Chars(d)[i] != '=' && Chars(d)[i] != ':'
    decreases |d|
  {
    hide Alpha, Six, IsBlank, GroupWord;
    if d != [] {
      var c := GroupWord(d, 0);
      AlphabetIndex(Six(c, 0x40000));
      AlphabetIndex(Six(c, 0x1000));
      AlphabetIndex(Six(c, 0x40));
      AlphabetIndex(Six(c, 1));
      if |d| >= 3 {
        CharsShape(d[3..]);
      }
    }
  }

  lemma SixesOfSum(x1: int, x2: int, x3: int, x4: int)
    requires 0 <= x1 < 64 && 0 <= x2 < 64 && 0 <= x3 < 64 && 0 <= x4 < 64
    ensures
      var c := x1 * 0x40000 + x2 * 0x1000 + x3 * 0x40 + x4;
      Six(c, 0x40000) == x1 && Six(c, 0x1000) == x2 && Six(c, 0x40) == x3 && Six(c, 1) == x4
  {
    var c := x1 * 0x40000 + x2 * 0x1000 + x3 * 0x40 + x4;
    assert c / 0x40000 == x1;
    assert c / 0x1000 == x1 * 64 + x2;
    assert c / 0x40 == x1 * 0x1000 + x2 * 64 + x3;
  }

  /** The four sixes of three bytes, and the three bytes glued together again. */
  lemma GroupBack(b0: Byte, b1: Byte, b2: Byte)
    ensures
      var c := b0 as int * 0x10000 + b1 as int * 0x100 + b2 as int;
      var x1, x2, x3, x4 := Six(c, 0x40000), Six(c, 0x1000), Six(c, 0x40), Six(c, 1);
      && x1 == b0 as int / 4
      && x2 == b0 as int % 4 * 16 + b1 as int / 16
      && x3 == b1 as int % 16 * 4 + b2 as int / 64
      && x4 == b2 as int % 64
      && (x1 * 64 + x2) / 16 % 256 == b0 as int
      && (x2 * 64 + x3) / 4 % 256 == b1 as int
      && (x3 * 64 + x4) % 256 == b2 as int
  {
    var q0, r0 := b0 as int / 4, b0 as int % 4;
    var q1, r1 := b1 as int / 16, b1 as int % 16;
    var q2, r2 := b2 as int / 64, b2 as int % 64;
    assert b0 as int == q0 * 4 + r0 && b1 as int == q1 * 16 + r1 && b2 as int == q2 * 64 + r2;
    GluedBack(q0, r0, q1, r1, q2, r2);
    SixesOfSum(q0, r0 * 16 + q1, r1 * 4 + q2, r2);
  }

  lemma GluedBack(q0: int, r0: int, q1: int, r1: int, q2: int, r2: int)
    requires 0 <= q0 < 64 && 0 <= r0 < 4 && 0 <= q1 < 16 && 0 <= r1 < 16 && 0 <= q2 < 4 && 0 <= r2 < 64
    ensures (q0 * 64 + (r0 * 16 + q1)) / 16 % 256 == q0 * 4 + r0
    ensures ((r0 * 16 + q1) * 64 + (r1 * 4 + q2)) / 4 % 256 == q1 * 16 + r1
    ensures ((r1 * 4 + q2) * 64 + r2) % 256 == q2 * 64 + r2
  {
    assert (q0 * 64 + (r0 * 16 + q1)) / 16 == q0 * 4 + r0;
    assert ((r0 * 16 + q1) * 64 + (r1 * 4 + q2)) / 4 == r0 * 256 + (q1 * 16 + r1);
    LowByte(r0, q1 * 16 + r1);
    assert (r1 * 4 + q2) * 64 + r2 == r1 * 256 + (q2 * 64 + r2);
    LowByte(r1, q2 * 64 + r2);
  }

  lemma LowByte(high: int, low: int)
    requires 0 <= low < 256
    ensures (high * 256 + low) % 256 == low
  {
  }

  lemma DecodeParts(a1: char, a2: char, a3: char, a4: char, x1: int, x2: int, x3: int, x4: int)
    requires GetIdx(a1) == Ok(x1) && GetIdx(a2) == Ok(x2) && GetIdx(a3) == Ok(x3) && GetIdx(a4) == Ok(x4)
    ensures DecodeFour([a1, a2, '=', '=']) == Ok([(x1 * 64 + x2) / 16 % 256])
    ensures DecodeFour([a1, a2, a3, '=']) == Ok([(x1 * 64 + x2) / 16 % 256, (x2 * 64 + x3) / 4 % 256])
    ensures DecodeFour([a1, a2, a3, a4]) ==
            Ok([(x1 * 64 + x2) / 16 % 256, (x2 * 64 + x3) / 4 % 256, (x3 * 64 + x4) % 256])
  {
  }

  lemma FirstGroupDecodes(d: seq<Byte>)
    requires d != []
    ensures
      var c := GroupWord(d, 0);
      var a1, a2, a3, a4 := Alpha(Six(c, 0x40000)), Alpha(Six(c, 0x1000)), Alpha(Six(c, 0x40)), Alpha(Six(c, 1));
      && (|d| == 1 ==> DecodeFour([a1, a2, '=', '=']) == Ok(d))
      && (|d| == 2 ==> DecodeFour([a1, a2, a3, '=']) == Ok(d))
      && (|d| >= 3 ==> DecodeFour([a1, a2, a3, a4]) == Ok(d[..3]))
  {
    hide Alpha, Six, DecodeFour, GetIdx;
    var c := GroupWord(d, 0);
    var b1: Byte := if |d| > 1 then d[1] else 0;
    var b2: Byte := if |d| > 2 then d[2] else 0;
    assert c == d[0] as int * 0x10000 + b1 as int * 0x100 + b2 as int;
    var x1, x2, x3, x4 := Six(c, 0x40000), Six(c, 0x1000), Six(c, 0x40), Six(c, 1);
    GroupBack(d[0], b1, b2);
    AlphabetIndex(x1);
    AlphabetIndex(x2);
    AlphabetIndex(x3);
    AlphabetIndex(x4);
    DecodeParts(Alpha(x1), Alpha(x2), Alpha(x3), Alpha(x4), x1, x2, x3, x4);
    assert |d| >= 3 ==> d[..3] == [d[0], d[1], d[2]];
    assert |d| == 2 ==> d == [d[0], d[1]];
    assert |d| == 1 ==> d == [d[0]];
  }

  /** The first group of an encoding. */
  function FirstFour(d: seq<Byte>): (four: string)
    requires d != []
    ensures |four| == 4
  {
    var c := GroupWord(d, 0);
    [Alpha(Six(c, 0x40000)), Alpha(Six(c, 0x1000)), if |d| > 1 then Alpha(Six(c, 0x40)) else '=',
     if |d| > 2 then Alpha(Six(c, 1)) else '=']
  }

  lemma FirstFourDecodes(d: seq<Byte>)
    requires d != []
    ensures DecodeFour(FirstFour(d)) == Ok(if |d| > 2 then d[..3] else d)
  {
    hide Alpha, Six, DecodeFour, GroupWord;
    FirstGroupDecodes(d);
  }

  /** The rest of the bytes gives the rest of the text. */
  lemma TextAfterFour(d: seq<Byte>)
    requires d != []
    ensures Chars(d) + Padding(|d|) ==
            FirstFour(d) + if |d| > 2 then Chars(d[3..]) + Padding(|d[3..]|) else ""
  {
    hide Alpha, Six, GroupWord;
    if |d| > 2 {
      assert Padding(|d|) == Padding(|d[3..]|);
    }
  }

  lemma {:induction false} CharsDecode(d: seq<Byte>)
    ensures DecodeGroups(Chars(d) + Padding(|d|)) == Ok(d)
    decreases |d|
  {
    LastGroup("");
    if d == [] {
      assert Chars(d) + Padding(0) == "";
    } else {
      hide DecodeFour, DecodeGroups, FirstFour, Chars, Padding;
      TextAfterFour(d);
      FirstFourDecodes(d);
      if |d| > 2 {
        CharsDecode(d[3..]);
        FirstGroup(FirstFour(d), Chars(d[3..]) + Padding(|d[3..]|));
        assert d == d[..3] + d[3..];
      } else {
        FirstGroup(FirstFour(d), "");
        assert d + [] == d;
      }
    }
  }

  lemma EncodedText(d: seq<Byte>)
    ensures Encode(d) == Wrap("", Chars(d)) + Padding(|d|)
    ensures WithoutBlanks(Encode(d)) == Chars(d) + Padding(|d|)
  {
    hide IsBlank, EncodeFrom, Chars, Wrap, WithoutBlanks, Padding;
    EncodeIsWrapped("", d, 0);
    assert d[0..] == d;
    CharsShape(d);
    WrapDropped("", Chars(d));
    PaddingNotBlank(|d|);
    NothingToDrop(Padding(|d|));
    WithoutBlanksConcat(Wrap("", Chars(d)), Padding(|d|));
    NothingToDrop("");
    assert "" + Chars(d) == Chars(d);
  }

  lemma PaddingNotBlank(n: nat)
    ensures NoBlanks(Padding(n))
  {
  }

  /** An encoding broken into lines of any length, or with any other white space in it, decodes to the bytes
      it encodes. */
  lemma RewrappedDecodes(s: string, d: seq<Byte>)
    requires WithoutBlanks(s) == WithoutBlanks(Encode(d))
    ensures Decode(s) == Ok(d)
  {
    hide Encode, WithoutBlanks;
    EncodedText(d);
    CharsDecode(d);
  }

  /** For every byte string, decoding its encoding gives it back. */
  lemma Base64RoundTrip(d: seq<Byte>)
    ensures Decode(Encode(d)) == Ok(d)
  {
    RewrappedDecodes(Encode(d), d);
  }

  // ----- What is accepted -----

  predicate InAlphabet(c: char) {
    'A' <= c <= 'Z' || 'a' <= c <= 'z' || '0' <= c <= '9' || c == '+' || c == '/'
  }

  /** A group begins with two characters of the alphabet; padding may follow, and after a padding
      character in the third place anything. */
  predicate GroupAccepted(four: string)
    requires |four| == 4
  {
    && InAlphabet(four[0]) && InAlphabet(four[1])
    && (four[2] == '=' || (InAlphabet(four[2]) && (four[3] == '=' || InAlphabet(four[3]))))
  }

  lemma DecodeFourExactly(four: string)
    requires |four| == 4
    ensures if GroupAccepted(four) then DecodeFour(four).Ok? else DecodeFour(four) == Err(Malformed)
    ensures DecodeFour(four).Ok? ==>
              |DecodeFour(four).value| == if four[2] == '=' then 1 else if four[3] == '=' then 2 else 3
  {
  }

  /** What a group means: the bits of its characters' places in the table, eight by eight; bits that fill no
      byte are dropped, and what follows a padding character in the third place is not looked at. */
  lemma GroupMeans(i1: int, i2: int, i3: int, i4: int, any: char)
    requires 0 <= i1 < 64 && 0 <= i2 < 64 && 0 <= i3 < 64 && 0 <= i4 < 64
    ensures DecodeFour([Alpha(i1), Alpha(i2), '=', any]) == Ok([i1 * 4 + i2 / 16])
    ensures DecodeFour([Alpha(i1), Alpha(i2), Alpha(i3), '=']) == Ok([i1 * 4 + i2 / 16, i2 % 16 * 16 + i3 / 4])
    ensures DecodeFour([Alpha(i1), Alpha(i2), Alpha(i3), Alpha(i4)]) ==
            Ok([i1 * 4 + i2 / 16, i2 % 16 * 16 + i3 / 4, i3 % 4 * 64 + i4])
  {
    hide Alpha;
    AlphabetIndex(i1);
    AlphabetIndex(i2);
    AlphabetIndex(i3);
    AlphabetIndex(i4);
    ThreeBytes(i1, i2, i3, i4);
    DecodeParts(Alpha(i1), Alpha(i2), Alpha(i3), Alpha(i4), i1, i2, i3, i4);
  }

  lemma ThreeBytes(i1: int, i2: int, i3: int, i4: int)
    requires 0 <= i1 < 64 && 0 <= i2 < 64 && 0 <= i3 < 64 && 0 <= i4 < 64
    ensures (i1 * 64 + i2) / 16 % 256 == i1 * 4 + i2 / 16
    ensures (i2 * 64 + i3) / 4 % 256 == i2 % 16 * 16 + i3 / 4
    ensures (i3 * 64 + i4) % 256 == i3 % 4 * 64 + i4
  {
    var q2, r2, q3, r3 := i2 / 16, i2 % 16, i3 / 4, i3 % 4;
    assert i2 == q2 * 16 + r2 && i3 == q3 * 4 + r3;
    assert (i1 * 64 + i2) / 16 == i1 * 4 + q2;
    assert (i2 * 64 + i3) / 4 == q2 * 256 + (r2 * 16 + q3);
    LowByte(q2, r2 * 16 + q3);
    assert i3 * 64 + i4 == q3 * 256 + (r3 * 64 + i4);
    LowByte(q3, r3 * 64 + i4);
  }

  predicate GroupsAccepted(s: string)
    decreases |s|
  {
    s == "" || (|s| >= 4 && GroupAccepted(s[..4]) && GroupsAccepted(s[4..]))
  }

  lemma {:induction false} DecodeGroupsExactly(s: string)
    ensures if GroupsAccepted(s) then DecodeGroups(s).Ok? else DecodeGroups(s) == Err(Malformed)
    decreases |s|
  {
    hide GroupAccepted, DecodeFour;
    if |s| >= 4 {
      DecodeFourExactly(s[..4]);
      DecodeGroupsExactly(s[4..]);
    }
  }

  /** Decoding succeeds exactly on groups of four that are in order, white space aside; the error is always
      the same, and reaching the padding is never one. */
  lemma DecodeExactly(s: string)
    ensures if GroupsAccepted(WithoutBlanks(s)) then Decode(s).Ok? else Decode(s) == Err(Malformed)
  {
    DecodeGroupsExactly(WithoutBlanks(s));
  }

  // ----- Lines -----

  /** Line breaks stand exactly at the positive multiples of 64, and never last. */
  ghost predicate BrokenAt64(w: string) {
    && (forall p :: 0 <= p < |w| ==> (w[p] == '\n' <==> p > 0 && p % CHARS_IN_LINE == 0))
    && (|w| > 1 ==> (|w| - 1) % CHARS_IN_LINE != 0)
  }

  lemma {:induction false} WrapBreaks(out: string, cs: string)
    requires BrokenAt64(out) && NoBlanks(cs)
    ensures BrokenAt64(Wrap(out, cs))
    decreases |cs|
  {
    if cs != "" {
      var next := PutChar(out, cs[0]);
      assert IsBlank('\n');
      WrapBreaks(next, cs[1..]);
    }
  }

  lemma {:induction false} WrapShort(out: string, cs: string)
    requires |out| + |cs| <= CHARS_IN_LINE
    ensures Wrap(out, cs) == out + cs
    decreases |cs|
  {
    if cs == "" {
      assert out + cs == out;
    } else {
      WrapShort(out + [cs[0]], cs[1..]);
      assert out + [cs[0]] + cs[1..] == out + cs;
    }
  }

  lemma {:induction false} WrapLength(out: string, cs: string)
    ensures |Wrap(out, cs)| >= |out| + |cs|
    decreases |cs|
  {
    if cs != "" {
      WrapLength(PutChar(out, cs[0]), cs[1..]);
    }
  }

  /** Where the lines of an encoding are broken: at every positive multiple of 64 before the padding. */
  lemma BreaksExactly(d: seq<Byte>, p: nat)
    requires p < |Encode(d)|
    ensures Encode(d)[p] == '\n' <==> p > 0 && p % 64 == 0 && p + (3 - |d| % 3) % 3 < |Encode(d)|
  {
    hide IsBlank, Encode, Chars, Wrap, WithoutBlanks;
    EncodedText(d);
    CharsShape(d);
    assert BrokenAt64("");
    WrapBreaks("", Chars(d));
  }

  /** `n` bytes give 4 * ceil(n / 3) characters besides line breaks, and no line is longer than 65. */
  lemma Base64Layout(d: seq<Byte>, i: nat, j: nat)
    requires i <= j <= |Encode(d)|
    requires forall k :: i <= k < j ==> Encode(d)[k] != '\n'
    ensures |WithoutBlanks(Encode(d))| == (|d| + 2) / 3 * 4
    ensures j - i <= 65
  {
    hide IsBlank, Encode, Chars, Wrap, WithoutBlanks;
    EncodedText(d);
    CharsShape(d);
    var w := Wrap("", Chars(d));
    assert BrokenAt64("");
    WrapBreaks("", Chars(d));
    if |w| <= CHARS_IN_LINE {
      WrapLength("", Chars(d));
      WrapShort("", Chars(d));
      FullGroups(|d|);
    } else {
      LineBound(w, Padding(|d|), i, j);
    }
  }

  lemma FullGroups(n: nat)
    ensures (n / 3 * 4 + (if n % 3 == 0 then 0 else n % 3 + 1) + |Padding(n)|) == (n + 2) / 3 * 4
    ensures |Padding(n)| <= 2
  {
  }

  /** A line starts after a break and ends before the next, or with the padding. */
  lemma LineBound(w: string, pad: string, i: nat, j: nat)
    requires BrokenAt64(w) && |pad| <= 2 && |w| > CHARS_IN_LINE && i <= j <= |w + pad|
    requires forall k :: i <= k < j ==> (w + pad)[k] != '\n'
    ensures j - i <= 65
  {
    var m := NextBreak(i);
    if m < |w| {
      assert (w + pad)[m] == w[m] == '\n';
    }
  }

  lemma NextBreak(i: nat) returns (m: nat)
    ensures m > 0 && m % CHARS_IN_LINE == 0 && i <= m <= i + CHARS_IN_LINE && (i > 0 ==> m < i + CHARS_IN_LINE)
  {
    m := (i + CHARS_IN_LINE - 1) / CHARS_IN_LINE * CHARS_IN_LINE;
    if i == 0 {
      m := CHARS_IN_LINE;
    }
  }

  /** The encoding is one line exactly up to 48 bytes. */
  lemma OneLineUpTo48(d: seq<Byte>)
    ensures '\n' in Encode(d) <==> |d| > 48
    ensures forall k :: 0 <= k < |Encode(d)| ==> Encode(d)[k] == '\n' || (!IsBlank(Encode(d)[k]) && Encode(d)[k] != ':')
  {
    hide Encode, Chars, Wrap, IsBlank;
    EncodedText(d);
    CharsShape(d);
    var w := Wrap("", Chars(d));
    assert BrokenAt64("");
    WrapBreaks("", Chars(d));
    WrapLength("", Chars(d));
    EncodedChars(d);
    if |d| <= 48 {
      WrapShort("", Chars(d));
      assert "" + Chars(d) == Chars(d);
      LineFeedIsBlank();
    } else {
      assert w[64] == '\n' && Encode(d)[64] == w[64];
    }
  }

  lemma LineFeedIsBlank()
    ensures IsBlank('\n')
  {
  }

  lemma EncodedChars(d: seq<Byte>)
    ensures forall k :: 0 <= k < |Encode(d)| ==> Encode(d)[k] == '\n' || (!IsBlank(Encode(d)[k]) && Encode(d)[k] != ':')
    ensures forall k :: 0 <= k < |Padding(|d|)| ==> Padding(|d|)[k] == '='
  {
    hide Encode, Chars, Wrap;
    EncodedText(d);
    CharsShape(d);
    WrapChars("", Chars(d));
    var w := Wrap("", Chars(d));
    forall k | 0 <= k < |Encode(d)|
      ensures Encode(d)[k] == '\n' || (!IsBlank(Encode(d)[k]) && Encode(d)[k] != ':')
    {
      if k < |w| {
        assert Encode(d)[k] == w[k];
      } else {
        assert Encode(d)[k] == Padding(|d|)[k - |w|] == '=';
      }
    }
  }

  lemma {:induction false} WrapChars(out: string, cs: string)
    ensures forall k :: 0 <= k < |Wrap(out, cs)| ==>
              Wrap(out, cs)[k] in out || Wrap(out, cs)[k] in cs || Wrap(out, cs)[k] == '\n'
    decreases |cs|
  {
    if cs != "" {
      WrapChars(PutChar(out, cs[0]), cs[1..]);
    }
  }

  // ----- Bits -----

  function Weight(k: nat): (w: int)
    requires k < 8
    ensures w > 0
  {
    if k == 0 then 128 else if k == 1 then 64 else if k == 2 then 32 else if k == 3 then 16
    else if k == 4 then 8 else if k == 5 then 4 else if k == 6 then 2 else 1
  }

  /** Bit `k` of the input, the first bit of a byte being its highest; after the end there are zeros. */
  function Bit(d: seq<Byte>, k: nat): int {
    if k / 8 >= |d| then 0 else d[k / 8] as int / Weight(k % 8) % 2
  }

  /** The number that six bits in a row form. */
  function SixBits(d: seq<Byte>, k: nat): int {
    Bit(d, k) * 32 + Bit(d, k + 1) * 16 + Bit(d, k + 2) * 8 + Bit(d, k + 3) * 4 + Bit(d, k + 4) * 2 + Bit(d, k + 5)
  }

  /** The parts of a byte that fall into different sixes, by its bits. */
  predicate Parts(x: int, h7: int, h6: int, h5: int, h4: int, h3: int, h2: int, h1: int, h0: int) {
    && x / 4 == h7 * 32 + h6 * 16 + h5 * 8 + h4 * 4 + h3 * 2 + h2
    && x % 4 == h1 * 2 + h0
    && x / 16 == h7 * 8 + h6 * 4 + h5 * 2 + h4
    && x % 16 == h3 * 8 + h2 * 4 + h1 * 2 + h0
    && x / 64 == h7 * 2 + h6
    && x % 64 == h5 * 32 + h4 * 16 + h3 * 8 + h2 * 4 + h1 * 2 + h0
  }

  lemma HalvesOf(x: nat)
    ensures x / 2 / 2 == x / 4 && x / 4 / 2 == x / 8 && x / 8 / 2 == x / 16 && x / 16 / 2 == x / 32
    ensures x / 32 / 2 == x / 64 && x / 64 / 2 == x / 128
  {
  }

  /** Adding up bits from a chain of halves. */
  lemma SumOfHalves(x: int, y1: int, y2: int, y3: int, y4: int, y5: int, y6: int, y7: int)
    requires 0 <= x < 256
    requires y1 == x / 2 && y2 == y1 / 2 && y3 == y2 / 2 && y4 == y3 / 2 && y5 == y4 / 2 && y6 == y5 / 2 && y7 == y6 / 2
    ensures y7 % 2 == y7
    ensures y6 == y7 * 2 + y6 % 2
    ensures y4 == y7 * 8 + y6 % 2 * 4 + y5 % 2 * 2 + y4 % 2
    ensures y2 == y7 * 32 + y6 % 2 * 16 + y5 % 2 * 8 + y4 % 2 * 4 + y3 % 2 * 2 + y2 % 2
    ensures x - 4 * y2 == y1 % 2 * 2 + x % 2
    ensures x - 16 * y4 == y3 % 2 * 8 + y2 % 2 * 4 + y1 % 2 * 2 + x % 2
    ensures x - 64 * y6 == y5 % 2 * 32 + y4 % 2 * 16 + y3 % 2 * 8 + y2 % 2 * 4 + y1 % 2 * 2 + x % 2
  {
  }

  lemma PartsOfByte(x: int)
    requires 0 <= x < 256
    ensures Parts(x, x / 128 % 2, x / 64 % 2, x / 32 % 2, x / 16 % 2, x / 8 % 2, x / 4 % 2, x / 2 % 2, x / 1 % 2)
  {
    HalvesOf(x);
    SumOfHalves(x, x / 2, x / 4, x / 8, x / 16, x / 32, x / 64, x / 128);
    assert x % 4 == x - 4 * (x / 4) && x % 16 == x - 16 * (x / 16) && x % 64 == x - 64 * (x / 64);
  }

  lemma GroupBits(d: seq<Byte>)
    requires d != []
    ensures
      var c := GroupWord(d, 0);
      && Six(c, 0x40000) == SixBits(d, 0) && Six(c, 0x1000) == SixBits(d, 6)
      && Six(c, 0x40) == SixBits(d, 12) && Six(c, 1) == SixBits(d, 18)
  {
    hide Six, Bit;
    var b1: Byte := if |d| > 1 then d[1] else 0;
    var b2: Byte := if |d| > 2 then d[2] else 0;
    assert GroupWord(d, 0) == d[0] as int * 0x10000 + b1 as int * 0x100 + b2 as int;
    GroupBack(d[0], b1, b2);
    PartsByBit(d, 0, d[0]);
    PartsByBit(d, 1, b1);
    PartsByBit(d, 2, b2);
  }

  lemma PartsByBit(d: seq<Byte>, n: nat, b: Byte)
    requires b == if n < |d| then d[n] else 0
    ensures
      var k := 8 * n;
      Parts(b as int, Bit(d, k), Bit(d, k + 1), Bit(d, k + 2), Bit(d, k + 3),
            Bit(d, k + 4), Bit(d, k + 5), Bit(d, k + 6), Bit(d, k + 7))
  {
    hide Parts, Bit;
    PartsOfByte(b as int);
    BitsOfByte(d, n, b);
  }

  lemma BitIndex(n: nat, p: nat)
    requires p < 8
    ensures (8 * n + p) / 8 == n && (8 * n + p) % 8 == p
  {
  }

  lemma BitsOfByte(d: seq<Byte>, n: nat, b: Byte)
    requires b == if n < |d| then d[n] else 0
    ensures
      var x := b as int;
      && Bit(d, 8 * n) == x / 128 % 2 && Bit(d, 8 * n + 1) == x / 64 % 2
      && Bit(d, 8 * n + 2) == x / 32 % 2 && Bit(d, 8 * n + 3) == x / 16 % 2
      && Bit(d, 8 * n + 4) == x / 8 % 2 && Bit(d, 8 * n + 5) == x / 4 % 2
      && Bit(d, 8 * n + 6) == x / 2 % 2 && Bit(d, 8 * n + 7) == x / 1 % 2
  {
    BitIndex(n, 0);
    BitIndex(n, 1);
    BitIndex(n, 2);
    BitIndex(n, 3);
    BitIndex(n, 4);
    BitIndex(n, 5);
    BitIndex(n, 6);
    BitIndex(n, 7);
  }

  lemma BitsShift(d: seq<Byte>, k: nat)
    requires |d| >= 3
    ensures SixBits(d, k + 24) == SixBits(d[3..], k)
  {
    forall m: nat
      ensures Bit(d, m + 24) == Bit(d[3..], m)
    {
      assert (m + 24) / 8 == m / 8 + 3 && (m + 24) % 8 == m % 8;
    }
  }

  /** Character `j` of the encoding is that of the alphabet for bits 6j to 6j+5 of the input, zeros being
      added at the end: the definition of the standard. */
  lemma {:induction false} CharIsSixBits(d: seq<Byte>, j: nat)
    requires j < |Chars(d)|
    ensures 0 <= SixBits(d, 6 * j) < 64 && Chars(d)[j] == Alpha(SixBits(d, 6 * j))
    decreases |d|
  {
    hide Alpha, Six, SixBits, GroupWord;
    GroupBits(d);
    if j >= 4 {
      CharIsSixBits(d[3..], j - 4);
      BitsShift(d, 6 * (j - 4));
    }
  }
}
