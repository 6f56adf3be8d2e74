/** `Binary_data`: base64 text with line breaks, and back. */
module Base64 {
  import opened Results
  import opened Text

  type Byte = n: int | 0 <= n < 256

  const CHARS_IN_LINE := 64

  // ----- Encoding -----

  /** The table of characters, which is four runs of the character set. */
  function Alpha(idx: int): char
    requires 0 <= idx < 64
  {
    if idx < 26 then 'A' + idx as char
    else if idx < 52 then 'a' + (idx - 26) as char
    else if idx < 62 then '0' + (idx - 52) as char
    else if idx == 62 then '+'
    else '/'
  }

  /** The rows of the table as they are written down. */
  lemma AlphabetTable(i: int)
    requires 0 <= i < 13
    ensures Alpha(i) == "ABCDEFGHIJKLM"[i] && Alpha(13 + i) == "NOPQRSTUVWXYZ"[i]
    ensures Alpha(26 + i) == "abcdefghijklm"[i] && Alpha(39 + i) == "nopqrstuvwxyz"[i]
    ensures i < 12 ==> Alpha(52 + i) == "0123456789+/"[i]
  {
  }

  /** Six bits of a group: `(c >> k) & 0x3f`, with 2^k as the divisor. */
  function Six(c: nat, divisor: nat): (idx: int)
    requires divisor > 0
    ensures 0 <= idx < 64
  {
    c / divisor % 64
  }

  /** A character after a line break if the text so far fills whole lines; the length that decides on a
      break counts the breaks already made. */
  function PutChar(out: string, c: char): string {
    (if out != "" && |out| % CHARS_IN_LINE == 0 then out + "\n" else out) + [c]
  }

  /** `add_base64_char`. */
  function AddChar(out: string, idx: int): string
    requires 0 <= idx < 64
  {
    PutChar(out, Alpha(idx))
  }

  /** The loop of `encode` from byte `i` on.  `|` of disjoint bits is addition, a shift to the right a
      division. */
  function EncodeFrom(out: string, d: seq<Byte>, i: nat): string
    decreases |d| - i
  {
    if i >= |d| then
      out
    else
      var c := d[i] as int * 0x10000;
      var out1 := AddChar(out, Six(c, 0x40000));
      if i + 1 >= |d| then
        AddChar(out1, Six(c, 0x1000)) + "=="
      else
        var c1 := c + d[i + 1] as int * 0x100;
        var out2 := AddChar(out1, Six(c1, 0x1000));
        if i + 2 >= |d| then
          AddChar(out2, Six(c1, 0x40)) + "="
        else
          var c2 := c1 + d[i + 2];
          EncodeFrom(AddChar(AddChar(out2, Six(c2, 0x40)), Six(c2, 1)), d, i + 3)
  }

  function Encode(d: seq<Byte>): string {
    EncodeFrom("", d, 0)
  }

  // ----- Decoding -----

  datatype Stop = EndOfData | Malformed

  function GetIdx(c: char): (r: Result<int, Stop>)
    ensures r.Ok? ==> 0 <= r.value < 64
  {
    if c == '=' then Err(EndOfData)
    else if 'A' <= c <= 'Z' then Ok(c as int - 'A' as int)
    else if 'a' <= c <= 'z' then Ok(26 + c as int - 'a' as int)
    else if '0' <= c <= '9' then Ok(52 + c as int - '0' as int)
    else if c == '+' then Ok(62)
    else if c == '/' then Ok(63)
    else Err(Malformed)
  }

  /** `decode_four`: a padding character ends the group, whatever follows it. */
  function DecodeFour(four: string): Result<seq<Byte>, Stop>
    requires |four| == 4
  {
    if four[0] == '=' || four[1] == '=' then
      Err(Malformed)
    else
      var i1 :- GetIdx(four[0]);
      var i2 :- GetIdx(four[1]);
      var b1: Byte := (i1 * 64 + i2) / 16 % 256;
      match GetIdx(four[2])
      case Err(EndOfData) => Ok([b1])
      case Err(Malformed) => Err(Malformed)
      case Ok(i3) =>
        var b2: Byte := (i2 * 64 + i3) / 4 % 256;
        match GetIdx(four[3])
        case Err(EndOfData) => Ok([b1, b2])
        case Err(Malformed) => Err(Malformed)
        case Ok(i4) =>
          var b3: Byte := (i3 * 64 + i4) % 256;
          Ok([b1, b2, b3])
  }

  /** Groups of four; a group that is not complete is malformed. */
  function DecodeGroups(s: string): Result<seq<Byte>, Stop>
    decreases |s|
  {
    if s == "" then
      Ok([])
    else if |s| < 4 then
      Err(Malformed)
    else
      var b :- DecodeFour(s[..4]);
      var rest :- DecodeGroups(s[4..]);
      Ok(b + rest)
  }

  function WithoutBlanks(s: string): string {
    if s == "" then "" else (if IsBlank(s[0]) then "" else [s[0]]) + WithoutBlanks(s[1..])
  }

  function Decode(s: string): Result<seq<Byte>, Stop> {
    DecodeGroups(WithoutBlanks(s))
  }

  // ----- The class -----

  class BinaryData {
    var data: seq<Byte>
    var base64: string

    constructor FromData(s: seq<Byte>)
      ensures data == s && base64 == ""
    {
      data, base64 := s, "";
    }

    /** The object a text is about to be decoded into. */
    constructor Undecoded(s: string)
      ensures base64 == s && data == []
    {
      data, base64 := [], s;
    }

    method AddBase64Char(idx: int)
      requires 0 <= idx < 64
      modifies this`base64
      ensures base64 == AddChar(old(base64), idx)
    {
      if base64 != "" && |base64| % CHARS_IN_LINE == 0 {
        base64 := base64 + "\n";
      }
      base64 := base64 + [Alpha(idx)];
    }

    method EncodeData()
      modifies this`base64
      ensures base64 == EncodeFrom(old(base64), data, 0)
    {
      hide AddChar, Six;
      var i := 0;
      while i < |data|
        invariant 0 <= i
        invariant EncodeFrom(base64, data, i) == EncodeFrom(old(base64), data, 0)
        decreases |data| - i
      {
        var c := data[i] as int * 0x10000;
        AddBase64Char(Six(c, 0x40000));
        if i + 1 < |data| {
          c := c + data[i + 1] as int * 0x100;
          AddBase64Char(Six(c, 0x1000));
        } else {
          AddBase64Char(Six(c, 0x1000));
          base64 := base64 + "==";
          return;
        }
        if i + 2 < |data| {
          c := c + data[i + 2];
          AddBase64Char(Six(c, 0x40));
          AddBase64Char(Six(c, 1));
        } else {
          AddBase64Char(Six(c, 0x40));
          base64 := base64 + "=";
          return;
        }
        i := i + 3;
      }
    }

    /** Encode on first use. */
    method GetBase64() returns (text: string)
      modifies this`base64
      ensures text == base64 == if old(base64) == "" && data != [] then Encode(data) else old(base64)
    {
      if base64 == "" && data != [] {
        EncodeData();
      }
      return base64;
    }

    /** Append what the text decodes to; the answer is false where the C++ code throws. */
    method DecodeData() returns (ok: bool)
      modifies this`data
      ensures ok <==> Decode(base64).Ok?
      ensures ok ==> data == old(data) + Decode(base64).value
    {
      hide DecodeFour, IsBlank, DecodeGroups;
      var four := "";
      var i := 0;
      ghost var done: seq<Byte> := [];
      ghost var all := Decode(base64);
      assert base64[0..] == base64 && "" + WithoutBlanks(base64) == WithoutBlanks(base64);
      assert all.Ok? ==> done + all.value == all.value;
      while i < |base64|
        invariant 0 <= i <= |base64| && |four| < 4
        invariant data == old(data) + done
        invariant all == (var rest :- DecodeGroups(four + WithoutBlanks(base64[i..])); Ok(done + rest))
      {
        var c := base64[i];
        ghost var later := WithoutBlanks(base64[i + 1..]);
        assert base64[i..][1..] == base64[i + 1..] && "" + later == later;
        i := i + 1;
        if IsBlank(c) {
          continue;
        }
        assert four + ([c] + later) == four + [c] + later;
        four := four + [c];
        if |four| == 4 {
          FirstGroup(four, later);
          var b := DecodeFour(four);
          if b.Err? {
            return false;
          }
          if DecodeGroups(later).Ok? {
            assert done + (b.value + DecodeGroups(later).value) == done + b.value + DecodeGroups(later).value;
          }
          data := data + b.value;
          done := done + b.value;
          four := "";
        }
      }
      assert four + WithoutBlanks(base64[i..]) == four;
      LastGroup(four);
      if four == "" {
        assert done + [] == done;
      }
      return four == "";
    }
  }

  lemma FirstGroup(four: string, later: string)
    requires |four| == 4
    ensures DecodeGroups(four + later) ==
            (var b :- DecodeFour(four); var rest :- DecodeGroups(later); Ok(b + rest))
  {
    hide DecodeFour;
    assert (four + later)[..4] == four && (four + later)[4..] == later;
  }

  lemma LastGroup(four: string)
    requires |four| < 4
    ensures DecodeGroups(four) == if four == "" then Ok([]) else Err(Malformed)
  {
  }
}
