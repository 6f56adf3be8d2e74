/** What the searches and the splitting of text mean, in terms of the pieces a text is made of. */
module TextLaws {
  import opened Text

  // ----- Characters -----

  const BLANKS := "\t\n\U{000B}\U{000C}\r "
  const UPPER_CASE := "ABCDEFGHIJKLMNOPQRSTUVWXYZ"
  const LOWER_CASE := "abcdefghijklmnopqrstuvwxyz"

  /** The six characters of white space. */
  lemma BlankTable(c: char)
    ensures IsBlank(c) <==> c in BLANKS
  {
    assert BLANKS[0] == '\t' && BLANKS[1] == '\n' && BLANKS[2] == '\U{000B}';
    assert BLANKS[3] == '\U{000C}' && BLANKS[4] == '\r' && BLANKS[5] == ' ';
  }

  lemma LetterTable(k: nat)
    requires k < 26
    ensures UPPER_CASE[k] == 'A' + k as char && LOWER_CASE[k] == 'a' + k as char
  {
  }

  /** Lowering turns each capital into its small letter and keeps every other character. */
  lemma LowerExactly(s: string, i: nat)
    requires i < |s|
    ensures |Lower(s)| == |s|
    ensures forall k :: 0 <= k < 26 && s[i] == UPPER_CASE[k] ==> Lower(s)[i] == LOWER_CASE[k]
    ensures s[i] !in UPPER_CASE ==> Lower(s)[i] == s[i]
  {
    forall k | 0 <= k < 26
      ensures s[i] == UPPER_CASE[k] ==> Lower(s)[i] == LOWER_CASE[k]
    {
      LetterTable(k);
    }
    if 'A' <= s[i] <= 'Z' {
      LetterTable(s[i] as int - 65);
      assert s[i] == UPPER_CASE[s[i] as int - 65];
    }
  }

  // ----- Trimming -----

  predicate Blank(s: string) {
    forall c :: c in s ==> c in BLANKS
  }

  /** No blank at either end. */
  predicate Bare(s: string) {
    s != "" ==> s[0] !in BLANKS && s[|s| - 1] !in BLANKS
  }

  lemma BlankIsAllBlank(s: string)
    ensures Blank(s) <==> AllBlank(s)
  {
    forall i | 0 <= i < |s|
      ensures IsBlank(s[i]) <==> s[i] in BLANKS
    {
      BlankTable(s[i]);
    }
    if AllBlank(s) {
      forall c | c in s
        ensures c in BLANKS
      {
        BlankTable(c);
      }
    }
  }

  lemma BareIsTrimmed(s: string)
    ensures Bare(s) <==> Trimmed(s)
  {
    if s != "" {
      BlankTable(s[0]);
      BlankTable(s[|s| - 1]);
    }
  }

  lemma DropOne(s: string, c: char)
    ensures DropTrailingBlank(s + [c]) == if IsBlank(c) then DropTrailingBlank(s) else s + [c]
  {
    hide IsBlank;
    assert (s + [c])[..|s|] == s;
  }

  lemma {:induction false} DropTrailing(s: string, ws: string)
    requires AllBlank(ws) && (s != "" ==> !IsBlank(s[|s| - 1]))
    ensures DropTrailingBlank(s + ws) == s
    decreases |ws|
  {
    if ws == "" {
      assert s + ws == s;
    } else {
      hide IsBlank, DropTrailingBlank;
      var front, c := ws[..|ws| - 1], ws[|ws| - 1];
      DropTrailing(s, front);
      DropOne(s + front, c);
      assert s + ws == s + front + [c];
    }
  }

  /** Trimming gives the one text without blanks at its ends that is left when blanks at the ends go. */
  lemma TrimExactly(before: string, s: string, after: string)
    requires Blank(before) && Bare(s) && Blank(after)
    ensures Trim(before + s + after) == s
  {
    hide Blank, Bare;
    BlankIsAllBlank(before);
    BlankIsAllBlank(after);
    BareIsTrimmed(s);
    assert before + s + after == before + (s + after);
    SkipBlankOver(before, s + after);
    if s == "" {
      assert s + after == after + "";
      SkipBlankOver(after, "");
    } else {
      assert (s + after)[0] == s[0];
      DropTrailing(s, after);
    }
  }

  /** Every text has those three parts. */
  lemma TrimParts(s: string) returns (before: string, after: string)
    ensures Blank(before) && Bare(Trim(s)) && Blank(after) && s == before + Trim(s) + after
  {
    hide Blank, Bare;
    before := BlanksBefore(s);
    var t := SkipBlank(s);
    after := BlanksAfter(t);
    BlankIsAllBlank(before);
    BlankIsAllBlank(after);
    var u := DropTrailingBlank(t);
    assert t == u + after;
    if u != "" {
      assert u[0] == t[0];
    }
    BareIsTrimmed(u);
  }

  lemma {:induction false} BlanksAfter(s: string) returns (ws: string)
    ensures AllBlank(ws) && s == DropTrailingBlank(s) + ws
    ensures DropTrailingBlank(s) != "" ==> !IsBlank(DropTrailingBlank(s)[|DropTrailingBlank(s)| - 1])
  {
    if s != "" && IsBlank(s[|s| - 1]) {
      ws := BlanksAfter(s[..|s| - 1]);
      ws := ws + [s[|s| - 1]];
      assert s == s[..|s| - 1] + [s[|s| - 1]];
    } else {
      ws := "";
    }
  }

  // ----- Searching -----

  /** The first occurrence is the one whose text before it is shortest. */
  lemma FindExactly(s: string, pat: string, before: string, after: string)
    requires s == before + pat + after
    ensures Find(s, pat).Some? && Find(s, pat).value <= |before|
    ensures s == s[..Find(s, pat).value] + pat + s[Find(s, pat).value + |pat|..]
  {
    assert At(s, pat, |before|);
    var i := Find(s, pat).value;
    assert s[i..i + |pat|] == pat;
  }

  lemma FoundParts(s: string, pat: string)
    requires Find(s, pat).Some?
    ensures
      var i := Find(s, pat).value;
      i + |pat| <= |s| && s == s[..i] + pat + s[i + |pat|..]
  {
    var i := Find(s, pat).value;
    assert s[i..i + |pat|] == pat;
  }
}
