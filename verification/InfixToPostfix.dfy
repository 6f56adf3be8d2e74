/** The grammar accepts exactly the texts of syntax trees, and leaves exactly their postfix lists. */
module InfixToPostfix {
  import opened Results
  import opened Decimal
  import opened Postfix
  import opened InfixGrammar
  import opened Text

  // ----- Blanks and digits -----

  lemma {:induction false} DigitRunOver(d: string, s: string)
    requires AllDigits(d) && (s == [] || !IsDigit(s[0]))
    ensures DigitRun(d + s) == |d|
  {
    if d == [] {
      assert d + s == s;
    } else {
      assert (d + s)[1..] == d[1..] + s;
      DigitRunOver(d[1..], s);
    }
  }

  lemma CharAfterBlanks(c: char, ws: string, s: string)
    requires AllBlank(ws) && !IsBlank(c)
    ensures Char(c, ws + [c] + s) == Some(s)
  {
    assert ws + [c] + s == ws + ([c] + s);
    SkipBlankOver(ws, [c] + s);
  }

  /** A character the grammar finds stands after some blanks. */
  lemma CharFound(c: char, s: string) returns (ws: string)
    requires Char(c, s).Some?
    ensures AllBlank(ws) && s == ws + [c] + Char(c, s).value
  {
    ws := BlanksBefore(s);
    assert SkipBlank(s) == [c] + SkipBlank(s)[1..];
  }

  /** The first character that is not blank is one of `cs`. */
  predicate Starts(s: string, cs: string) {
    SkipBlank(s) != [] && SkipBlank(s)[0] in cs
  }

  /** What may follow a complete factor: no digit that would join its last digits. */
  predicate NoDigit(s: string) {
    s == [] || !IsDigit(s[0])
  }

  // ----- One character decides -----

  lemma OneChar(c: char, d: char, s: string)
    requires Char(c, s).Some? && c != d
    ensures Char(d, s).None? && Starts(s, [c])
  {
  }

  lemma OpFactorMisses(op: Op, s: string, stack: seq<Token>)
    requires Char(OpChar(op), s).None?
    ensures OpFactor(op, s, stack) == Miss(stack)
  {
  }

  lemma OpTermMisses(op: Op, s: string, stack: seq<Token>)
    requires Char(OpChar(op), s).None?
    ensures OpTerm(op, s, stack) == Miss(stack)
  {
  }

  lemma SignedMisses(sign: char, s: string, stack: seq<Token>)
    requires Char(sign, s).None?
    ensures Signed(sign, s, stack) == Miss(stack)
  {
  }

  lemma ParenthesisedMisses(s: string, stack: seq<Token>)
    requires Char('(', s).None?
    ensures Parenthesised(s, stack) == Miss(stack)
  {
  }

  /** The operator that stands next, if it is `*` or `/`, is the only alternative that can match. */
  lemma TermStepByChar(s: string, stack: seq<Token>)
    ensures Char('*', s).Some? ==> TermStep(s, stack) == OpFactor(Multiply, s, stack)
    ensures Char('/', s).Some? ==> TermStep(s, stack) == OpFactor(Divide, s, stack)
    ensures Char('*', s).None? && Char('/', s).None? ==> TermStep(s, stack) == Miss(stack)
  {
    hide Char, SkipBlank, OpFactor, Starts;
    if Char('*', s).Some? {
      OneChar('*', '/', s);
      var m := OpFactor(Multiply, s, stack);
      if m.Miss? {
        OpFactorMisses(Divide, s, m.stack);
      }
    } else {
      OpFactorMisses(Multiply, s, stack);
      if Char('/', s).None? {
        OpFactorMisses(Divide, s, stack);
      }
    }
  }

  lemma ExpressionStepByChar(s: string, stack: seq<Token>)
    ensures Char('+', s).Some? ==> ExpressionStep(s, stack) == OpTerm(Add, s, stack)
    ensures Char('-', s).Some? ==> ExpressionStep(s, stack) == OpTerm(Subtract, s, stack)
    ensures Char('+', s).None? && Char('-', s).None? ==> ExpressionStep(s, stack) == Miss(stack)
  {
    hide Char, SkipBlank, OpTerm, Starts;
    if Char('+', s).Some? {
      OneChar('+', '-', s);
      var m := OpTerm(Add, s, stack);
      if m.Miss? {
        OpTermMisses(Subtract, s, m.stack);
      }
    } else {
      OpTermMisses(Add, s, stack);
      if Char('-', s).None? {
        OpTermMisses(Subtract, s, stack);
      }
    }
  }

  /** A factor that does not start with a digit. */
  lemma FactorByChar(s: string, stack: seq<Token>)
    requires Digits(s, stack).Miss?
    ensures Char('(', s).Some? ==> Factor(s, stack) == Parenthesised(s, stack)
    ensures Char('-', s).Some? ==> Factor(s, stack) == Signed('-', s, stack)
    ensures Char('+', s).Some? ==> Factor(s, stack) == Signed('+', s, stack)
    ensures Char('(', s).None? && Char('-', s).None? && Char('+', s).None? ==> Factor(s, stack) == Miss(stack)
  {
    assert Digits(s, stack) == Miss(stack);
    hide Char, SkipBlank, Parenthesised, Signed, Starts, Digits;
    if Char('(', s).Some? {
      OneChar('(', '-', s);
      OneChar('(', '+', s);
      var m := Parenthesised(s, stack);
      if m.Miss? {
        SignedMisses('-', s, m.stack);
        SignedMisses('+', s, m.stack);
      }
    } else {
      ParenthesisedMisses(s, stack);
      if Char('-', s).Some? {
        OneChar('-', '+', s);
        var m := Signed('-', s, stack);
        if m.Miss? {
          SignedMisses('+', s, m.stack);
        }
      } else {
        SignedMisses('-', s, stack);
        if Char('+', s).None? {
          SignedMisses('+', s, stack);
        }
      }
    }
  }

  // ----- Every hit comes from a tree, or stops at an operator -----

  /** A repetition that ends because the part after an operator failed may leave stray tokens; but then
      the text left begins with that operator. */
  lemma TermStepMiss(s: string, stack: seq<Token>)
    requires TermStep(s, stack).Miss? && TermStep(s, stack).stack != stack
    ensures Starts(s, "*/")
  {
    TermStepByChar(s, stack);
    assert Char('*', s).Some? || Char('/', s).Some?;
    assert '*' == "*/"[0] && '/' == "*/"[1];
  }

  lemma ExpressionStepMiss(s: string, stack: seq<Token>)
    requires ExpressionStep(s, stack).Miss? && ExpressionStep(s, stack).stack != stack
    ensures Starts(s, "+-*/")
  {
    ExpressionStepByChar(s, stack);
    assert Char('+', s).Some? || Char('-', s).Some?;
    assert '+' == "+-*/"[0] && '-' == "+-*/"[1];
  }

  lemma {:induction false} FactorSound(s: string, stack: seq<Token>) returns (f: FactorTree)
    requires Factor(s, stack).Hit?
    ensures f.Legal() && s == f.Text() + Factor(s, stack).rest
    ensures f.Emit().Ok? && Factor(s, stack).stack == stack + f.Emit().value
    decreases |s|, 2
  {
    var m := Factor(s, stack);
    if Digits(s, stack).Hit? {
      f := DigitsSound(s, stack);
      return;
    }
    FactorByChar(s, stack);
    if Char('(', s).Some? {
      f := GroupSound(s, stack);
    } else {
      f := SignedSound(if Char('-', s).Some? then '-' else '+', s, stack);
    }
  }

  lemma DigitsSound(s: string, stack: seq<Token>) returns (f: FactorTree)
    requires Digits(s, stack).Hit?
    ensures f.Legal() && s == f.Text() + Digits(s, stack).rest
    ensures f.Emit().Ok? && Digits(s, stack).stack == stack + f.Emit().value
  {
    var t := SkipBlank(s);
    var n := DigitRun(t);
    var ws := BlanksBefore(s);
    f := Number(ws, t[..n]);
    assert s == ws + t[..n] + t[n..];
  }

  lemma {:induction false} GroupSound(s: string, stack: seq<Token>) returns (f: FactorTree)
    requires Parenthesised(s, stack).Hit?
    ensures f.Legal() && s == f.Text() + Parenthesised(s, stack).rest
    ensures f.Emit().Ok? && Parenthesised(s, stack).stack == stack + f.Emit().value
    decreases |s|, 1
  {
    var rest := Parenthesised(s, stack).rest;
    var ws := CharFound('(', s);
    var t := Char('(', s).value;
    var e, dirty := ExpressionSound(t, stack);
    var u := Expression(t, stack).rest;
    assert !dirty;
    var close := CharFound(')', u);
    f := Group(ws, e, close);
    assert s == ws + ['('] + (e.Text() + (close + [')'] + rest));
    assert f.Text() == ws + "(" + e.Text() + close + ")";
    assert f.Text() + rest == s;
  }

  lemma {:induction false} SignedSound(sign: char, s: string, stack: seq<Token>) returns (f: FactorTree)
    requires sign == '-' || sign == '+'
    requires Signed(sign, s, stack).Hit?
    ensures f.Legal() && s == f.Text() + Signed(sign, s, stack).rest
    ensures f.Emit().Ok? && Signed(sign, s, stack).stack == stack + f.Emit().value
    decreases |s|, 1
  {
    hide Factor, DoNeg, SkipBlank, FactorTree.Text;
    var rest := Signed(sign, s, stack).rest;
    var ws := CharFound(sign, s);
    var t := Char(sign, s).value;
    var g := FactorSound(t, stack);
    f := Sign(ws, sign == '-', g);
    SignText(f, rest);
    if sign == '-' {
      DoNegOnTop(stack, g.Emit().value);
    }
  }

  lemma SignText(f: FactorTree, rest: string)
    requires f.Sign?
    ensures f.Text() + rest == f.ws + [if f.minus then '-' else '+'] + (f.operand.Text() + rest)
  {
  }

  /** `do_neg` only touches the last token. */
  lemma DoNegOnTop(base: seq<Token>, p: seq<Token>)
    requires p != []
    ensures DoNeg(base + p) == (var q :- DoNeg(p); Ok(base + q))
  {
    hide Literal, IntToString;
    assert (base + p)[..|base + p| - 1] == base + p[..|p| - 1];
    assert (base + p)[|base + p| - 1] == p[|p| - 1];
    if DoNeg(p).Ok? {
      var x := IntToString(-Literal(p[|p| - 1]).value);
      assert base + (p[..|p| - 1] + [x]) == (base + p[..|p| - 1]) + [x];
    }
  }

  lemma {:induction false} TermSound(s: string, stack: seq<Token>) returns (t: ProductTree, dirty: bool)
    requires Term(s, stack).Hit?
    ensures if dirty then Starts(Term(s, stack).rest, "*/")
            else && t.Legal() && s == t.Text() + Term(s, stack).rest
                 && t.Emit().Ok? && Term(s, stack).stack == stack + t.Emit().value
    decreases |s|, 3
  {
    hide Factor, TermLoop, Starts;
    var f := FactorSound(s, stack);
    var u, stack1 := Factor(s, stack).rest, Factor(s, stack).stack;
    var tail, d := TermLoopSound(u, stack1);
    t, dirty := ProductTree(f, tail), d;
    if !dirty {
      assert s == f.Text() + (tail.Text() + Term(s, stack).rest);
    }
  }

  lemma JoinText(s: string, ws: string, c: char, t: string, a: string, u: string, b: string, rest: string)
    requires s == ws + [c] + t && t == a + u && u == b + rest
    ensures s == ws + [c] + a + b + rest
  {
  }

  lemma JoinStack(stack: seq<Token>, p: seq<Token>, x: Token, q: seq<Token>)
    ensures stack + p + [x] + q == stack + (p + [x] + q)
  {
  }

  lemma {:induction false} TermLoopSound(s: string, stack: seq<Token>) returns (tail: ProductTail, dirty: bool)
    requires TermLoop(s, stack).Hit?
    ensures if dirty then Starts(TermLoop(s, stack).rest, "*/")
            else && tail.Legal() && s == tail.Text() + TermLoop(s, stack).rest
                 && tail.Emit().Ok? && TermLoop(s, stack).stack == stack + tail.Emit().value
    decreases |s|, 3
  {
    hide OpName, Char, Starts, Factor, OpChar, SkipBlank, TermStep;
    var m := TermStep(s, stack);
    if m.Miss? {
      tail, dirty := NoFactor, m.stack != stack;
      if dirty {
        TermStepMiss(s, stack);
      }
      return;
    }
    TermStepByChar(s, stack);
    var op := if Char('*', s).Some? then Multiply else Divide;
    assert m == OpFactor(op, s, stack);
    var ws := CharFound(OpChar(op), s);
    var t := Char(OpChar(op), s).value;
    var f := FactorSound(t, stack);
    var more, d := TermLoopSound(m.rest, m.stack);
    tail, dirty := MoreFactors(ws, op, f, more), d;
    if !dirty {
      JoinText(s, ws, OpChar(op), t, f.Text(), m.rest, more.Text(), TermLoop(s, stack).rest);
      JoinStack(stack, f.Emit().value, OpName(op), more.Emit().value);
    }
  }

  lemma {:induction false} ExpressionSound(s: string, stack: seq<Token>) returns (e: SumTree, dirty: bool)
    requires Expression(s, stack).Hit?
    ensures if dirty then Starts(Expression(s, stack).rest, "+-*/")
            else && e.Legal() && s == e.Text() + Expression(s, stack).rest
                 && e.Emit().Ok? && Expression(s, stack).stack == stack + e.Emit().value
    decreases |s|, 4
  {
    hide Term, ExpressionLoop, Starts;
    var t, d1 := TermSound(s, stack);
    var u, stack1 := Term(s, stack).rest, Term(s, stack).stack;
    var tail, d2 := ExpressionLoopSound(u, stack1);
    if d1 {
      StuckLoop(u, stack1);
    }
    e, dirty := SumTree(t, tail), d1 || d2;
    if !dirty {
      assert s == t.Text() + (tail.Text() + Expression(s, stack).rest);
    }
  }

  /** Before a multiplication sign the outer repetition stops at once. */
  lemma StuckLoop(s: string, stack: seq<Token>)
    requires Starts(s, "*/")
    ensures ExpressionLoop(s, stack) == Hit(s, stack)
    ensures Starts(s, "+-*/")
  {
    ExpressionStepByChar(s, stack);
    assert SkipBlank(s)[0] == '*' || SkipBlank(s)[0] == '/';
    assert Char('+', s).None? && Char('-', s).None?;
    assert '*' == "+-*/"[2] && '/' == "+-*/"[3];
  }

  lemma {:induction false} ExpressionLoopSound(s: string, stack: seq<Token>) returns (tail: SumTail, dirty: bool)
    requires ExpressionLoop(s, stack).Hit?
    ensures if dirty then Starts(ExpressionLoop(s, stack).rest, "+-*/")
            else && tail.Legal() && s == tail.Text() + ExpressionLoop(s, stack).rest
                 && tail.Emit().Ok? && ExpressionLoop(s, stack).stack == stack + tail.Emit().value
    decreases |s|, 4
  {
    hide OpName, Char, Starts, Term, OpChar, SkipBlank, ExpressionStep;
    var m := ExpressionStep(s, stack);
    if m.Miss? {
      tail, dirty := NoProduct, m.stack != stack;
      if dirty {
        ExpressionStepMiss(s, stack);
      }
      return;
    }
    ExpressionStepByChar(s, stack);
    var op := if Char('+', s).Some? then Add else Subtract;
    assert m == OpTerm(op, s, stack);
    var ws := CharFound(OpChar(op), s);
    var t := Char(OpChar(op), s).value;
    var p, d1 := TermSound(t, stack);
    var more, d2 := ExpressionLoopSound(m.rest, m.stack);
    if d1 {
      StuckLoop(m.rest, m.stack);
    }
    tail, dirty := MoreProducts(ws, op, p, more), d1 || d2;
    if !dirty {
      JoinText(s, ws, OpChar(op), t, p.Text(), m.rest, more.Text(), ExpressionLoop(s, stack).rest);
      JoinStack(stack, p.Emit().value, OpName(op), more.Emit().value);
    }
  }

  // ----- Every tree is matched -----

  /** What the parser answers when it meets a tree's text and then `rest`. */
  function Outcome(
      emitted: Result<seq<Token>, Fault>, left: seq<Token>, rest: string, stack: seq<Token>): Match {
    match emitted
    case Ok(p) => Hit(rest, stack + p)
    case Err(x) => Throw(x, stack + left)
  }

  lemma NothingFollows(s: string, cs: string)
    requires AllBlank(s)
    ensures NoDigit(s) && !Starts(s, cs)
  {
    SkipBlankOver(s, []);
    assert s + [] == s;
  }

  /** Blanks and then a character that is no digit. */
  lemma PunctuationFollows(ws: string, c: char, s: string, cs: string)
    requires AllBlank(ws) && !IsBlank(c) && !IsDigit(c) && c !in cs
    ensures NoDigit(ws + [c] + s) && !Starts(ws + [c] + s, cs)
  {
    assert ws + [c] + s == ws + ([c] + s);
    SkipBlankOver(ws, [c] + s);
  }

  lemma NotStarting(s: string, cs: string, c: char)
    requires !Starts(s, cs) && c in cs
    ensures Char(c, s).None?
  {
  }

  lemma DigitsMiss(c: char, s: string, stack: seq<Token>)
    requires Char(c, s).Some? && !IsDigit(c)
    ensures Digits(s, stack) == Miss(stack)
  {
  }

  lemma {:induction false} FactorComplete(f: FactorTree, rest: string, stack: seq<Token>)
    requires f.Legal() && NoDigit(rest)
    ensures Factor(f.Text() + rest, stack) == Outcome(f.Emit(), f.Left(), rest, stack)
    decreases f, 0
  {
    hide SkipBlank, Char, Digits, Starts, Expression, Factor, DoNeg;
    var s := f.Text() + rest;
    match f
    case Number(ws, d) =>
      DigitsComplete(ws, d, rest, stack);
    case Group(ws, e, close) =>
      assert s == ws + ['('] + (e.Text() + (close + [')'] + rest));
      var t := e.Text() + (close + [')'] + rest);
      CharAfterBlanks('(', ws, t);
      DigitsMiss('(', s, stack);
      FactorByChar(s, stack);
      PunctuationFollows(close, ')', rest, "+-*/");
      ExpressionComplete(e, close + [')'] + rest, stack);
      CharAfterBlanks(')', close, rest);
      assert Factor(s, stack) == Parenthesised(s, stack);
    case Sign(ws, minus, g) =>
      var sign := if minus then '-' else '+';
      assert s == ws + [sign] + (g.Text() + rest);
      CharAfterBlanks(sign, ws, g.Text() + rest);
      DigitsMiss(sign, s, stack);
      FactorByChar(s, stack);
      FactorComplete(g, rest, stack);
      assert Factor(s, stack) == Signed(sign, s, stack);
      if g.Emit().Ok? {
        DoNegOnTop(stack, g.Emit().value);
      }
  }

  lemma DigitsComplete(ws: string, d: string, rest: string, stack: seq<Token>)
    requires AllBlank(ws) && d != [] && AllDigits(d) && NoDigit(rest)
    ensures Factor(ws + d + rest, stack) == Hit(rest, stack + [d])
  {
    var s := ws + d + rest;
    assert s == ws + (d + rest);
    SkipBlankOver(ws, d + rest);
    DigitRunOver(d, rest);
    assert SkipBlank(s) == d + rest;
    assert (d + rest)[..|d|] == d && (d + rest)[|d|..] == rest;
    assert Digits(s, stack) == Hit(rest, stack + [d]);
  }

  lemma {:induction false} TermComplete(t: ProductTree, rest: string, stack: seq<Token>)
    requires t.Legal() && NoDigit(rest) && !Starts(rest, "*/")
    ensures Term(t.Text() + rest, stack) == Outcome(t.Emit(), t.Left(), rest, stack)
    decreases t, 1
  {
    hide Factor, TermLoop, Starts, NoDigit, FactorTree.Text, FactorTree.Emit, FactorTree.Left, FactorTree.Legal,
      ProductTail.Text, ProductTail.Emit, ProductTail.Left, ProductTail.Legal;
    var after := t.tail.Text() + rest;
    assert t.Text() + rest == t.first.Text() + after;
    TailFollows(t.tail, rest);
    FactorComplete(t.first, after, stack);
    if t.first.Emit().Ok? {
      var p := t.first.Emit().value;
      TermLoopComplete(t.tail, rest, stack + p);
      if t.tail.Emit().Ok? {
        assert stack + p + t.tail.Emit().value == stack + (p + t.tail.Emit().value);
      } else {
        assert stack + p + t.tail.Left() == stack + (p + t.tail.Left());
      }
    }
  }

  lemma OpCharFacts(op: Op)
    ensures !IsBlank(OpChar(op)) && !IsDigit(OpChar(op))
    ensures op == Add || op == Subtract ==> OpChar(op) !in "*/"
  {
  }

  lemma TailFollows(tail: ProductTail, rest: string)
    requires tail.Legal() && NoDigit(rest)
    ensures NoDigit(tail.Text() + rest)
  {
    if tail.NoFactor? {
      assert tail.Text() + rest == rest;
    } else {
      var more := tail.factor.Text() + tail.tail.Text() + rest;
      assert tail.Text() + rest == tail.ws + [OpChar(tail.op)] + more;
      OpCharFacts(tail.op);
      PunctuationFollows(tail.ws, OpChar(tail.op), more, "");
    }
  }

  lemma {:induction false} TermLoopComplete(tail: ProductTail, rest: string, stack: seq<Token>)
    requires tail.Legal() && NoDigit(rest) && !Starts(rest, "*/")
    ensures TermLoop(tail.Text() + rest, stack) == Outcome(tail.Emit(), tail.Left(), rest, stack)
    decreases tail, 1
  {
    hide OpName, OpChar, SkipBlank, Char, Factor, Starts, NoDigit, TermStep;
    var s := tail.Text() + rest;
    if tail.NoFactor? {
      assert s == rest;
      NotStarting(rest, "*/", "*/"[0]);
      NotStarting(rest, "*/", "*/"[1]);
      TermStepByChar(s, stack);
      assert stack + [] == stack;
    } else {
      var f, more, c := tail.factor, tail.tail, OpChar(tail.op);
      var after := more.Text() + rest;
      var t := f.Text() + after;
      assert s == tail.ws + [c] + t;
      OpCharFacts(tail.op);
      CharAfterBlanks(c, tail.ws, t);
      TermStepOf(tail.op, s, stack);
      TailFollows(more, rest);
      FactorComplete(f, after, stack);
      if f.Emit().Ok? {
        var p := f.Emit().value;
        TermLoopComplete(more, rest, stack + p + [OpName(tail.op)]);
        JoinStack(stack, p, OpName(tail.op), if more.Emit().Ok? then more.Emit().value else more.Left());
      }
    }
  }

  lemma TermStepOf(op: Op, s: string, stack: seq<Token>)
    requires op == Multiply || op == Divide
    requires Char(OpChar(op), s).Some?
    ensures TermStep(s, stack) == OpFactor(op, s, stack)
  {
    TermStepByChar(s, stack);
  }

  lemma ExpressionStepOf(op: Op, s: string, stack: seq<Token>)
    requires op == Add || op == Subtract
    requires Char(OpChar(op), s).Some?
    ensures ExpressionStep(s, stack) == OpTerm(op, s, stack)
  {
    ExpressionStepByChar(s, stack);
  }

  lemma {:induction false} ExpressionComplete(e: SumTree, rest: string, stack: seq<Token>)
    requires e.Legal() && NoDigit(rest) && !Starts(rest, "+-*/")
    ensures Expression(e.Text() + rest, stack) == Outcome(e.Emit(), e.Left(), rest, stack)
    decreases e, 1
  {
    hide Term, ExpressionLoop, Starts, NoDigit, ProductTree.Text, ProductTree.Emit, ProductTree.Left, ProductTree.Legal,
      SumTail.Text, SumTail.Emit, SumTail.Left, SumTail.Legal;
    var after := e.tail.Text() + rest;
    assert e.Text() + rest == e.first.Text() + after;
    SumTailFollows(e.tail, rest);
    TermComplete(e.first, after, stack);
    if e.first.Emit().Ok? {
      var p := e.first.Emit().value;
      ExpressionLoopComplete(e.tail, rest, stack + p);
      if e.tail.Emit().Ok? {
        assert stack + p + e.tail.Emit().value == stack + (p + e.tail.Emit().value);
      } else {
        assert stack + p + e.tail.Left() == stack + (p + e.tail.Left());
      }
    }
  }

  lemma FewerStarts(s: string)
    requires !Starts(s, "+-*/")
    ensures !Starts(s, "*/")
  {
  }

  lemma SumTailFollows(tail: SumTail, rest: string)
    requires tail.Legal() && NoDigit(rest) && !Starts(rest, "+-*/")
    ensures NoDigit(tail.Text() + rest) && !Starts(tail.Text() + rest, "*/")
  {
    if tail.NoProduct? {
      assert tail.Text() + rest == rest;
      FewerStarts(rest);
    } else {
      var more := tail.product.Text() + tail.tail.Text() + rest;
      assert tail.Text() + rest == tail.ws + [OpChar(tail.op)] + more;
      OpCharFacts(tail.op);
      PunctuationFollows(tail.ws, OpChar(tail.op), more, "*/");
    }
  }

  lemma {:induction false} ExpressionLoopComplete(tail: SumTail, rest: string, stack: seq<Token>)
    requires tail.Legal() && NoDigit(rest) && !Starts(rest, "+-*/")
    ensures ExpressionLoop(tail.Text() + rest, stack) == Outcome(tail.Emit(), tail.Left(), rest, stack)
    decreases tail, 1
  {
    hide OpName, OpChar, SkipBlank, Char, Term, Starts, NoDigit, ExpressionStep;
    var s := tail.Text() + rest;
    if tail.NoProduct? {
      assert s == rest;
      NotStarting(rest, "+-*/", "+-*/"[0]);
      NotStarting(rest, "+-*/", "+-*/"[1]);
      ExpressionStepByChar(s, stack);
      assert stack + [] == stack;
    } else {
      var t, more, c := tail.product, tail.tail, OpChar(tail.op);
      var after := more.Text() + rest;
      var u := t.Text() + after;
      assert s == tail.ws + [c] + u;
      OpCharFacts(tail.op);
      CharAfterBlanks(c, tail.ws, u);
      ExpressionStepOf(tail.op, s, stack);
      SumTailFollows(more, rest);
      TermComplete(t, after, stack);
      if t.Emit().Ok? {
        var p := t.Emit().value;
        ExpressionLoopComplete(more, rest, stack + p + [OpName(tail.op)]);
        JoinStack(stack, p, OpName(tail.op), if more.Emit().Ok? then more.Emit().value else more.Left());
      }
    }
  }

  // ----- The language -----

  /** The parser, on an empty stack, consumes everything but blanks and leaves `p`. */
  predicate Accepts(s: string, p: seq<Token>) {
    var m := Expression(s, []);
    m.Hit? && AllBlank(m.rest) && m.stack == p
  }

  /** `e`, with blanks after it, is spelled `s`. */
  predicate Spells(e: SumTree, after: string, s: string) {
    e.Legal() && AllBlank(after) && s == e.Text() + after
  }

  /** The parser matches a text completely with tokens `p` exactly if the text spells a syntax tree
      whose tokens are `p`; no token of an abandoned alternative is left.  It throws if the text spells
      a tree with a misplaced minus. */
  lemma GrammarExact(s: string, p: seq<Token>)
    ensures Accepts(s, p) <==> exists e, after :: Spells(e, after, s) && e.Emit() == Ok(p)
    ensures forall e, after :: Spells(e, after, s) && e.Emit().Err? ==>
              Expression(s, []) == Throw(e.Emit().error, e.Left())
  {
    hide Expression;
    assert forall q: seq<Token> :: [] + q == q;
    if Accepts(s, p) {
      var e, dirty := ExpressionSound(s, []);
      NothingFollows(Expression(s, []).rest, "+-*/");
      assert Spells(e, Expression(s, []).rest, s) && e.Emit() == Ok(p);
    }
    forall e, after | Spells(e, after, s)
      ensures Expression(s, []) == Outcome(e.Emit(), e.Left(), after, [])
    {
      NothingFollows(after, "+-*/");
      ExpressionComplete(e, after, []);
    }
  }

  // ----- What the tokens mean -----

  /** The expression a syntax tree stands for; a minus is folded into the literal it precedes. */
  function FactorExpr(f: FactorTree): Expr
    decreases f
  {
    match f
    case Number(_, d) => Lit(d)
    case Group(_, e, _) => SumExpr(e)
    case Sign(_, minus, g) =>
      var x := FactorExpr(g);
      if minus && x.Lit? && Literal(x.token).Ok? then Lit(IntToString(-Literal(x.token).value)) else x
  }

  /** Products and sums associate to the left. */
  function ProductTailExpr(acc: Expr, tail: ProductTail): Expr
    decreases tail
  {
    if tail.NoFactor? then acc else ProductTailExpr(Bin(tail.op, acc, FactorExpr(tail.factor)), tail.tail)
  }

  function ProductExpr(t: ProductTree): Expr
    decreases t
  {
    ProductTailExpr(FactorExpr(t.first), t.tail)
  }

  function SumTailExpr(acc: Expr, tail: SumTail): Expr
    decreases tail
  {
    if tail.NoProduct? then acc else SumTailExpr(Bin(tail.op, acc, ProductExpr(tail.product)), tail.tail)
  }

  function SumExpr(e: SumTree): Expr
    decreases e
  {
    SumTailExpr(ProductExpr(e.first), e.tail)
  }

  lemma OperatorIsNoLiteral(op: Op)
    ensures Literal(OpName(op)) == Err(BadCast)
  {
  }

  lemma {:induction false} FactorMeaning(f: FactorTree)
    requires f.Legal() && f.Emit().Ok?
    ensures FactorExpr(f).Proper() && f.Emit().value == FactorExpr(f).Post()
    ensures Eval(FactorExpr(f)) == f.Value()
    decreases f, 0
  {
    hide IsOp, OpName, IsNumber, LexicalInt, IntToString;
    match f
    case Number(_, d) =>
      DigitsAreNumber(d);
    case Group(_, e, _) =>
      SumMeaning(e);
    case Sign(_, minus, g) =>
      FactorMeaning(g);
      if minus {
        var x := FactorExpr(g);
        if x.Bin? {
          OperatorIsNoLiteral(x.op);
        }
        var n := Literal(x.token).value;
        assert x.Post()[..0] == [];
        IntRoundTrip(-n);
        WrittenIntIsNumber(-n);
      }
  }

  lemma DigitsAreNumber(d: string)
    requires d != [] && AllDigits(d)
    ensures IsNumber(d)
  {
  }

  lemma {:induction false} ProductTailMeaning(acc: Expr, tail: ProductTail)
    requires tail.Legal() && tail.Emit().Ok? && acc.Proper()
    ensures ProductTailExpr(acc, tail).Proper()
    ensures ProductTailExpr(acc, tail).Post() == acc.Post() + tail.Emit().value
    ensures Eval(ProductTailExpr(acc, tail)) == (var n :- Eval(acc); tail.Value(n))
    decreases tail, 1
  {
    hide IsOp, OpName, IsNumber, Apply;
    if tail.MoreFactors? {
      var f := tail.factor;
      FactorMeaning(f);
      ProductTailMeaning(Bin(tail.op, acc, FactorExpr(f)), tail.tail);
      JoinStack(acc.Post(), f.Emit().value, OpName(tail.op), tail.tail.Emit().value);
    } else {
      assert acc.Post() + [] == acc.Post();
    }
  }

  lemma {:induction false} ProductMeaning(t: ProductTree)
    requires t.Legal() && t.Emit().Ok?
    ensures ProductExpr(t).Proper() && t.Emit().value == ProductExpr(t).Post()
    ensures Eval(ProductExpr(t)) == t.Value()
    decreases t, 1
  {
    FactorMeaning(t.first);
    ProductTailMeaning(FactorExpr(t.first), t.tail);
  }

  lemma {:induction false} SumTailMeaning(acc: Expr, tail: SumTail)
    requires tail.Legal() && tail.Emit().Ok? && acc.Proper()
    ensures SumTailExpr(acc, tail).Proper()
    ensures SumTailExpr(acc, tail).Post() == acc.Post() + tail.Emit().value
    ensures Eval(SumTailExpr(acc, tail)) == (var n :- Eval(acc); tail.Value(n))
    decreases tail, 1
  {
    hide IsOp, OpName, IsNumber, Apply;
    if tail.MoreProducts? {
      var t := tail.product;
      ProductMeaning(t);
      SumTailMeaning(Bin(tail.op, acc, ProductExpr(t)), tail.tail);
      JoinStack(acc.Post(), t.Emit().value, OpName(tail.op), tail.tail.Emit().value);
    } else {
      assert acc.Post() + [] == acc.Post();
    }
  }

  lemma {:induction false} SumMeaning(e: SumTree)
    requires e.Legal() && e.Emit().Ok?
    ensures SumExpr(e).Proper() && e.Emit().value == SumExpr(e).Post()
    ensures Eval(SumExpr(e)) == e.Value()
    decreases e, 1
  {
    ProductMeaning(e.first);
    SumTailMeaning(ProductExpr(e.first), e.tail);
  }

  /** However a text is read as a formula, it means the same: all its syntax trees emit the same tokens, or end
      with the same exception, stand for the same expression and have the same value. */
  lemma OneMeaning(s: string, e: SumTree, after: string, f: SumTree, after': string)
    requires Spells(e, after, s) && Spells(f, after', s)
    ensures e.Emit() == f.Emit() && (e.Emit().Ok? ==> after == after')
    ensures e.Emit().Ok? ==> SumExpr(e) == SumExpr(f) && e.Value() == f.Value()
  {
    hide Expression, Eval, IsNumber, OpName, Expr.Post;
    NothingFollows(after, "+-*/");
    NothingFollows(after', "+-*/");
    ExpressionComplete(e, after, []);
    ExpressionComplete(f, after', []);
    if e.Emit().Ok? {
      assert [] + e.Emit().value == e.Emit().value && [] + f.Emit().value == f.Emit().value;
      SumMeaning(e);
      SumMeaning(f);
      PostUnique(SumExpr(e), SumExpr(f), [], []);
    }
  }

  /** A completely matched text leaves well-formed postfix whose value is that of the formula on paper,
      however the text is read: products before sums, both associated to the left, minus signs on literals. */
  lemma InfixToPostfixCorrect(s: string, p: seq<Token>) returns (e: SumTree, after: string)
    requires Accepts(s, p)
    ensures Spells(e, after, s)
    ensures WellFormed(p) && p == SumExpr(e).Post() && SumExpr(e).Proper()
    ensures forall f, after' :: Spells(f, after', s) ==> SumExpr(f) == SumExpr(e) && Eval(SumExpr(e)) == f.Value()
  {
    hide Expression, Eval, IsNumber;
    GrammarExact(s, p);
    e, after :| Spells(e, after, s) && e.Emit() == Ok(p);
    SumMeaning(e);
    WellFormedIffPost(p);
    forall f, after' | Spells(f, after', s)
      ensures SumExpr(f) == SumExpr(e) && f.Value() == e.Value()
    {
      OneMeaning(s, e, after, f, after');
    }
  }

  // ----- Where a minus may stand -----

  /** A literal in any nesting of signs and parentheses. */
  predicate IsLiteral(f: FactorTree) {
    match f
    case Number(_, _) => true
    case Group(_, e, _) => e.tail.NoProduct? && e.first.tail.NoFactor? && IsLiteral(e.first.first)
    case Sign(_, _, g) => IsLiteral(g)
  }

  function LiteralDigits(f: FactorTree): string
    requires IsLiteral(f)
  {
    match f
    case Number(_, d) => d
    case Group(_, e, _) => LiteralDigits(e.first.first)
    case Sign(_, _, g) => LiteralDigits(g)
  }

  /** How many minus signs stand before the digits. */
  function Minuses(f: FactorTree): nat
    requires IsLiteral(f)
  {
    match f
    case Number(_, _) => 0
    case Group(_, e, _) => Minuses(e.first.first)
    case Sign(_, minus, g) => Minuses(g) + if minus then 1 else 0
  }

  function Power(base: int, k: nat): int {
    if k == 0 then 1 else base * Power(base, k - 1)
  }

  /** Any nesting of signs and parentheses around digits emits one token: the digits themselves if there
      is no minus, else the number they read as, negated once for each minus; and it throws exactly if
      there is a minus and they do not fit an `int`. */
  lemma {:induction false} SignFolding(f: FactorTree)
    requires f.Legal() && IsLiteral(f)
    ensures f.Emit().Ok? <==> Minuses(f) == 0 || Literal(LiteralDigits(f)).Ok?
    ensures f.Emit().Ok? ==>
              && |f.Emit().value| == 1
              && (Minuses(f) == 0 ==> f.Emit().value[0] == LiteralDigits(f))
              && (Literal(LiteralDigits(f)).Ok? ==>
                    Literal(f.Emit().value[0]) == Ok(Power(-1, Minuses(f)) * Literal(LiteralDigits(f)).value))
    ensures f.Emit().Err? ==> f.Emit().error == BadCast
  {
    hide IntToString, LexicalInt;
    LiteralNotNegative(f);
    match f
    case Number(_, d) =>
    case Group(_, e, _) =>
      assert e.first.Legal();
      SignFolding(e.first.first);
      EmitOfOne(e);
    case Sign(_, minus, g) =>
      SignFolding(g);
      PowerOfMinusOne(Minuses(g));
      if minus && Literal(LiteralDigits(f)).Ok? {
        IntRoundTrip(-(Power(-1, Minuses(g)) * Literal(LiteralDigits(f)).value));
      }
  }

  lemma EmitOfOne(e: SumTree)
    requires e.tail.NoProduct? && e.first.tail.NoFactor?
    ensures e.Emit() == e.first.first.Emit()
  {
    assert e.tail.Emit() == Ok([]) && e.first.tail.Emit() == Ok([]);
    if e.first.first.Emit().Ok? {
      var p := e.first.first.Emit().value;
      assert p + [] == p && e.first.Emit() == Ok(p);
    } else {
      assert e.first.Emit() == e.first.first.Emit();
    }
  }

  lemma {:induction false} PowerOfMinusOne(k: nat)
    ensures Power(-1, k) == 1 || Power(-1, k) == -1
    ensures Power(-1, k + 1) == -Power(-1, k)
  {
    if k > 0 {
      PowerOfMinusOne(k - 1);
    }
  }

  /** The digits of a literal carry no sign. */
  lemma {:induction false} LiteralNotNegative(f: FactorTree)
    requires f.Legal() && IsLiteral(f)
    ensures LiteralDigits(f) != [] && AllDigits(LiteralDigits(f))
    ensures Literal(LiteralDigits(f)).Ok? ==> Literal(LiteralDigits(f)).value >= 0
  {
    match f
    case Number(_, d) =>
    case Group(_, e, _) =>
      assert e.first.Legal();
      LiteralNotNegative(e.first.first);
    case Sign(_, _, g) => LiteralNotNegative(g);
  }

  /** Every minus stands before a literal that fits an `int`. */
  predicate FactorSignsFit(f: FactorTree) {
    match f
    case Number(_, _) => true
    case Group(_, e, _) => SignsFit(e)
    case Sign(_, minus, g) => FactorSignsFit(g) && (minus ==> IsLiteral(g) && Literal(LiteralDigits(g)).Ok?)
  }

  predicate ProductTailSignsFit(tail: ProductTail) {
    tail.MoreFactors? ==> FactorSignsFit(tail.factor) && ProductTailSignsFit(tail.tail)
  }

  predicate ProductSignsFit(t: ProductTree) {
    FactorSignsFit(t.first) && ProductTailSignsFit(t.tail)
  }

  predicate SumTailSignsFit(tail: SumTail) {
    tail.MoreProducts? ==> ProductSignsFit(tail.product) && SumTailSignsFit(tail.tail)
  }

  predicate SignsFit(e: SumTree) {
    ProductSignsFit(e.first) && SumTailSignsFit(e.tail)
  }

  /** Only a literal leaves a number as its last token. */
  lemma {:induction false} LiteralIffOneToken(f: FactorTree)
    requires f.Legal() && f.Emit().Ok?
    ensures IsLiteral(f) <==> FactorExpr(f).Lit?
  {
    match f
    case Number(_, _) =>
    case Group(_, e, _) =>
      GroupIsLit(e);
    case Sign(_, _, g) =>
      LiteralIffOneToken(g);
  }

  lemma {:induction false} GroupIsLit(e: SumTree)
    requires e.Legal() && e.Emit().Ok?
    ensures SumExpr(e).Lit? <==> e.tail.NoProduct? && e.first.tail.NoFactor? && IsLiteral(e.first.first)
  {
    ProductTailBin(FactorExpr(e.first.first), e.first.tail);
    SumTailBin(ProductExpr(e.first), e.tail);
    LiteralIffOneToken(e.first.first);
  }

  lemma {:induction false} ProductTailBin(acc: Expr, tail: ProductTail)
    ensures ProductTailExpr(acc, tail).Lit? <==> acc.Lit? && tail.NoFactor?
    decreases tail
  {
    if tail.MoreFactors? {
      ProductTailBin(Bin(tail.op, acc, FactorExpr(tail.factor)), tail.tail);
    }
  }

  lemma {:induction false} SumTailBin(acc: Expr, tail: SumTail)
    ensures SumTailExpr(acc, tail).Lit? <==> acc.Lit? && tail.NoProduct?
    decreases tail
  {
    if tail.MoreProducts? {
      SumTailBin(Bin(tail.op, acc, ProductExpr(tail.product)), tail.tail);
    }
  }

  /** The actions get through exactly if every minus stands before a literal that fits; otherwise the
      parser ends with a bad cast. */
  lemma {:induction false} FactorEmits(f: FactorTree)
    requires f.Legal()
    ensures f.Emit().Ok? <==> FactorSignsFit(f)
    ensures f.Emit().Err? ==> f.Emit().error == BadCast
    decreases f, 0
  {
    match f
    case Number(_, _) =>
    case Group(_, e, _) => SumEmits(e);
    case Sign(_, minus, g) =>
      FactorEmits(g);
      if minus && g.Emit().Ok? {
        MinusEmits(f);
      }
  }

  lemma MinusEmits(f: FactorTree)
    requires f.Legal() && f.Sign? && f.minus && f.operand.Emit().Ok?
    ensures f.Emit().Ok? <==> IsLiteral(f.operand) && Literal(LiteralDigits(f.operand)).Ok?
    ensures f.Emit().Err? ==> f.Emit().error == BadCast
  {
    hide LexicalInt, IsNumber;
    LiteralIffOneToken(f.operand);
    FactorMeaning(f.operand);
    if IsLiteral(f.operand) {
      SignFolding(f);
    } else {
      OperatorIsNoLiteral(FactorExpr(f.operand).op);
    }
  }

  lemma {:induction false} ProductTailEmits(tail: ProductTail)
    requires tail.Legal()
    ensures tail.Emit().Ok? <==> ProductTailSignsFit(tail)
    ensures tail.Emit().Err? ==> tail.Emit().error == BadCast
    decreases tail, 1
  {
    if tail.MoreFactors? {
      FactorEmits(tail.factor);
      ProductTailEmits(tail.tail);
    }
  }

  lemma {:induction false} SumTailEmits(tail: SumTail)
    requires tail.Legal()
    ensures tail.Emit().Ok? <==> SumTailSignsFit(tail)
    ensures tail.Emit().Err? ==> tail.Emit().error == BadCast
    decreases tail, 1
  {
    if tail.MoreProducts? {
      FactorEmits(tail.product.first);
      ProductTailEmits(tail.product.tail);
      SumTailEmits(tail.tail);
    }
  }

  lemma {:induction false} SumEmits(e: SumTree)
    requires e.Legal()
    ensures e.Emit().Ok? <==> SignsFit(e)
    ensures e.Emit().Err? ==> e.Emit().error == BadCast
    decreases e, 1
  {
    FactorEmits(e.first.first);
    ProductTailEmits(e.first.tail);
    SumTailEmits(e.tail);
  }

  /** A text of the grammar is parsed exactly if each minus in it stands before a literal that fits an
      `int`; if not, `do_neg` throws. */
  lemma ParsedIffSignsFit(s: string, e: SumTree, after: string)
    requires Spells(e, after, s)
    ensures (exists p :: Accepts(s, p)) <==> SignsFit(e)
    ensures !SignsFit(e) ==> Expression(s, []) == Throw(BadCast, e.Left())
  {
    hide Expression, SignsFit;
    SumEmits(e);
    NothingFollows(after, "+-*/");
    ExpressionComplete(e, after, []);
    if e.Emit().Ok? {
      assert Accepts(s, [] + e.Emit().value);
    }
  }
}
