/** Characters and searches shared by the parsers. */
module Text {
  import opened Results

  /** `isspace` in the C locale. */
  predicate IsBlank(c: char) {
    c == ' ' || '\t' <= c <= '\r'
  }

  predicate AllBlank(s: string) {
    forall i :: 0 <= i < |s| ==> IsBlank(s[i])
  }

  function SkipBlank(s: string): (t: string)
    ensures |t| <= |s|
    ensures t != [] ==> !IsBlank(t[0])
  {
    if s != [] && IsBlank(s[0]) then SkipBlank(s[1..]) else s
  }

  lemma {:induction false} SkipBlankOver(ws: string, s: string)
    requires AllBlank(ws)
    ensures SkipBlank(ws + s) == SkipBlank(s)
  {
    if ws == [] {
      assert ws + s == s;
    } else {
      assert (ws + s)[1..] == ws[1..] + s;
      SkipBlankOver(ws[1..], s);
    }
  }

  /** The blanks `SkipBlank` drops. */
  lemma {:induction false} BlanksBefore(s: string) returns (ws: string)
    ensures AllBlank(ws) && s == ws + SkipBlank(s)
  {
    if s != [] && IsBlank(s[0]) {
      var rest := BlanksBefore(s[1..]);
      ws := [s[0]] + rest;
      assert s == [s[0]] + s[1..];
    } else {
      ws := [];
    }
  }

  function DropTrailingBlank(s: string): string {
    if s != [] && IsBlank(s[|s| - 1]) then DropTrailingBlank(s[..|s| - 1]) else s
  }

  /** `boost::trim`. */
  function Trim(s: string): string {
    DropTrailingBlank(SkipBlank(s))
  }

  predicate Trimmed(s: string) {
    s != [] ==> !IsBlank(s[0]) && !IsBlank(s[|s| - 1])
  }

  lemma TrimTrimmed(ws: string, s: string)
    requires AllBlank(ws) && Trimmed(s)
    ensures Trim(ws + s) == s
  {
    SkipBlankOver(ws, s);
  }

  function LowerChar(c: char): char {
    if 'A' <= c <= 'Z' then c + 32 as char else c
  }

  /** `boost::to_lower`. */
  function Lower(s: string): string {
    seq(|s|, i requires 0 <= i < |s| => LowerChar(s[i]))
  }

  lemma LowerKeeps(s: string)
    requires forall i :: 0 <= i < |s| ==> !('A' <= s[i] <= 'Z')
    ensures Lower(s) == s
  {
    assert forall i :: 0 <= i < |s| ==> LowerChar(s[i]) == s[i];
  }

  /** `pat` stands at position `i`. */
  predicate At(s: string, pat: string, i: nat) {
    i + |pat| <= |s| && s[i..i + |pat|] == pat
  }

  /** One character of an occurrence. */
  lemma CharOfOccurrence(s: string, pat: string, i: nat, k: nat)
    requires At(s, pat, i) && k < |pat|
    ensures s[i + k] == pat[k]
  {
    assert s[i..i + |pat|][k] == s[i + k];
  }

  /** One character that differs. */
  lemma NotAt(s: string, pat: string, i: nat, k: nat)
    requires k < |pat| && i + k < |s| && s[i + k] != pat[k]
    ensures !At(s, pat, i)
  {
    if i + |pat| <= |s| {
      assert s[i..i + |pat|][k] == s[i + k];
    }
  }

  /** `boost::find_first`: the first position at which `pat` stands. */
  function Find(s: string, pat: string): (r: Option<nat>)
    ensures r.Some? ==> At(s, pat, r.value) && forall i: nat :: i < r.value ==> !At(s, pat, i)
    ensures r.None? ==> forall i: nat :: !At(s, pat, i)
  {
    FindFrom(s, pat, 0)
  }

  function FindFrom(s: string, pat: string, i: nat): (r: Option<nat>)
    requires i <= |s| + 1
    requires forall j: nat :: j < i ==> !At(s, pat, j)
    ensures r.Some? ==> At(s, pat, r.value) && forall j: nat :: j < r.value ==> !At(s, pat, j)
    ensures r.None? ==> forall j: nat :: !At(s, pat, j)
    decreases |s| + 1 - i
  {
    if i > |s| then None else if At(s, pat, i) then Some(i) else FindFrom(s, pat, i + 1)
  }

  /** A first occurrence that ends inside a prefix is the first occurrence in the prefix. */
  lemma FindInPrefix(s: string, pat: string, n: nat)
    requires n <= |s|
    ensures Find(s[..n], pat) == if Find(s, pat).Some? && Find(s, pat).value + |pat| <= n then Find(s, pat) else None
  {
    AtInPrefix(s, pat, n);
  }

  lemma AtInPrefix(s: string, pat: string, n: nat)
    requires n <= |s|
    ensures forall i: nat :: At(s[..n], pat, i) <==> At(s, pat, i) && i + |pat| <= n
  {
    forall i: nat
      ensures At(s[..n], pat, i) <==> At(s, pat, i) && i + |pat| <= n
    {
      if i + |pat| <= n {
        assert s[..n][i..i + |pat|] == s[i..i + |pat|];
      }
    }
  }

  /** A part in which the pattern does not begin only shifts its first occurrence. */
  lemma FindShifted(a: string, s: string, pat: string)
    requires forall i: nat :: i < |a| ==> !At(a + s, pat, i)
    ensures Find(a + s, pat) == if Find(s, pat).None? then None else Some(|a| + Find(s, pat).value)
  {
    forall i: nat
      ensures At(s, pat, i) <==> At(a + s, pat, |a| + i)
    {
      if |a| + i + |pat| <= |a + s| {
        assert (a + s)[|a| + i..|a| + i + |pat|] == s[i..i + |pat|];
      }
    }
    if Find(a + s, pat).Some? {
      var k := Find(a + s, pat).value;
      assert k >= |a|;
      assert At(s, pat, k - |a|);
    }
  }

  lemma FindAtZero(pat: string, s: string)
    ensures Find(pat + s, pat) == Some(0)
  {
    assert At(pat + s, pat, 0);
  }

  /** A pattern whose first character does not occur is not found. */
  lemma NotFound(s: string, pat: string, c: char)
    requires pat != "" && pat[0] == c && forall k :: 0 <= k < |s| ==> s[k] != c
    ensures Find(s, pat).None?
  {
    forall i: nat | i < |s|
      ensures !At(s, pat, i)
    {
      NotAt(s, pat, i, 0);
    }
  }

  // ----- Splitting -----

  /** Length of the longest prefix without a separator. */
  function FieldLength(s: string, sep: char -> bool): (n: nat)
    ensures n <= |s|
    ensures forall i :: 0 <= i < n ==> !sep(s[i])
    ensures n < |s| ==> sep(s[n])
  {
    if s == [] || sep(s[0]) then 0 else 1 + FieldLength(s[1..], sep)
  }

  function SkipSeparators(s: string, sep: char -> bool): (t: string)
    ensures |t| <= |s|
    ensures s != [] && sep(s[0]) ==> |t| < |s|
  {
    if s != [] && sep(s[0]) then SkipSeparators(s[1..], sep) else s
  }

  /** `boost::split` with `token_compress_on`: runs of separators count once, but one at either end still
      leaves an empty field there. */
  function Split(s: string, sep: char -> bool): (fields: seq<string>)
    ensures fields != []
    decreases |s|
  {
    var n := FieldLength(s, sep);
    if n == |s| then [s] else [s[..n]] + Split(SkipSeparators(s[n..], sep), sep)
  }

  /** No character of `s` is a separator. */
  ghost predicate Whole(s: string, sep: char -> bool) {
    forall i :: 0 <= i < |s| ==> !sep(s[i])
  }

  lemma {:induction false} FieldLengthOver(a: string, s: string, sep: char -> bool)
    requires Whole(a, sep) && (s == [] || sep(s[0]))
    ensures FieldLength(a + s, sep) == |a|
  {
    if a == [] {
      assert a + s == s;
    } else {
      assert (a + s)[1..] == a[1..] + s;
      FieldLengthOver(a[1..], s, sep);
    }
  }

  lemma {:induction false} SkipSeparatorsOver(gap: string, s: string, sep: char -> bool)
    requires forall i :: 0 <= i < |gap| ==> sep(gap[i])
    requires s == [] || !sep(s[0])
    ensures SkipSeparators(gap + s, sep) == s
  {
    if gap == [] {
      assert gap + s == s;
    } else {
      assert (gap + s)[1..] == gap[1..] + s;
      SkipSeparatorsOver(gap[1..], s, sep);
    }
  }

  /** A field, a run of separators, and the rest. */
  lemma SplitField(a: string, gap: string, s: string, sep: char -> bool)
    requires Whole(a, sep) && gap != [] && (forall i :: 0 <= i < |gap| ==> sep(gap[i]))
    requires s == [] || !sep(s[0])
    ensures Split(a + gap + s, sep) == [a] + Split(s, sep)
  {
    assert a + gap + s == a + (gap + s);
    FieldLengthOver(a, gap + s, sep);
    assert (a + (gap + s))[|a|..] == gap + s;
    SkipSeparatorsOver(gap, s, sep);
  }

  lemma SplitWhole(a: string, sep: char -> bool)
    requires Whole(a, sep)
    ensures Split(a, sep) == [a]
  {
    FieldLengthOver(a, [], sep);
    assert a + [] == a;
  }
}
