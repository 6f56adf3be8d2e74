/** The global expression stack, the actions that work on it, and the grammar run over it. */
module ParserProduct {
  import opened Results
  import opened Decimal
  import opened Postfix
  import opened Text
  import G = InfixGrammar

  /** A scan that matched, failed, or was ended by an exception. */
  datatype Scan = Matched(rest: string) | Missed | Thrown(fault: Fault)

  /** The scan and the stack that a match stands for. */
  ghost predicate Agrees(m: G.Match, scan: Scan, tokens: seq<Token>) {
    match m
    case Hit(rest, stack) => scan == Matched(rest) && tokens == stack
    case Miss(stack) => scan == Missed && tokens == stack
    case Throw(x, stack) => scan == Thrown(x) && tokens == stack
  }

  class ExpressionStack {
    var tokens: seq<Token>

    constructor ()
      ensures tokens == []
    {
      tokens := [];
    }

    method DoInt(text: string)
      modifies this
      ensures tokens == old(tokens) + [text]
    {
      tokens := tokens + [text];
    }

    /** `do_add`, `do_subt`, `do_mult` and `do_div`. */
    method DoOp(op: Op)
      modifies this
      ensures tokens == old(tokens) + [OpName(op)]
    {
      tokens := tokens + [OpName(op)];
    }

    method DoNeg() returns (fault: Option<Fault>)
      modifies this
      ensures match G.DoNeg(old(tokens))
              case Ok(stack) => fault == None && tokens == stack
              case Err(x) => fault == Some(x) && tokens == old(tokens)
    {
      if tokens == [] {
        return Some(EmptyStack);
      }
      var back := LexicalInt(tokens[|tokens| - 1]);
      if back.None? {
        return Some(BadCast);
      }
      var x := -1 * back.value;
      if !FitsInt(x) {
        return Some(Overflow);
      }
      tokens := tokens[..|tokens| - 1];
      tokens := tokens + [IntToString(x)];
      return None;
    }

    /** `term >> *(('+' >> term)[&do_add] | ('-' >> term)[&do_subt])` */
    method Expression(s: string) returns (scan: Scan)
      modifies this
      ensures Agrees(G.Expression(s, old(tokens)), scan, tokens)
      decreases |s|, 4
    {
      scan := Term(s);
      if !scan.Matched? {
        return;
      }
      var next := scan.rest;
      while true
        invariant |next| < |s|
        invariant G.ExpressionLoop(next, tokens) == G.Expression(s, old(tokens))
        decreases |next|
      {
        scan := OpTerm(Add, next);
        if scan.Missed? {
          scan := OpTerm(Subtract, next);
        }
        if scan.Missed? {
          return Matched(next);
        }
        if scan.Thrown? {
          return;
        }
        next := scan.rest;
      }
    }

    method OpTerm(op: Op, s: string) returns (scan: Scan)
      modifies this
      ensures Agrees(G.OpTerm(op, s, old(tokens)), scan, tokens)
      decreases |s|, 2
    {
      var t := G.Char(G.OpChar(op), s);
      if t.None? {
        return Missed;
      }
      scan := Term(t.value);
      if scan.Matched? {
        DoOp(op);
      }
    }

    /** `factor >> *(('*' >> factor)[&do_mult] | ('/' >> factor)[&do_div])` */
    method Term(s: string) returns (scan: Scan)
      modifies this
      ensures Agrees(G.Term(s, old(tokens)), scan, tokens)
      decreases |s|, 3
    {
      scan := Factor(s);
      if !scan.Matched? {
        return;
      }
      var next := scan.rest;
      while true
        invariant |next| < |s|
        invariant G.TermLoop(next, tokens) == G.Term(s, old(tokens))
        decreases |next|
      {
        scan := OpFactor(Multiply, next);
        if scan.Missed? {
          scan := OpFactor(Divide, next);
        }
        if scan.Missed? {
          return Matched(next);
        }
        if scan.Thrown? {
          return;
        }
        next := scan.rest;
      }
    }

    method OpFactor(op: Op, s: string) returns (scan: Scan)
      modifies this
      ensures Agrees(G.OpFactor(op, s, old(tokens)), scan, tokens)
      decreases |s|, 1
    {
      var t := G.Char(G.OpChar(op), s);
      if t.None? {
        return Missed;
      }
      scan := Factor(t.value);
      if scan.Matched? {
        DoOp(op);
      }
    }

    /** Digits, a parenthesised expression, or a signed factor. */
    method Factor(s: string) returns (scan: Scan)
      modifies this
      ensures Agrees(G.Factor(s, old(tokens)), scan, tokens)
      decreases |s|, 2
    {
      scan := Digits(s);
      if scan.Missed? {
        scan := Parenthesised(s);
      }
      if scan.Missed? {
        scan := Signed('-', s);
      }
      if scan.Missed? {
        scan := Signed('+', s);
      }
    }

    method Digits(s: string) returns (scan: Scan)
      modifies this
      ensures Agrees(G.Digits(s, old(tokens)), scan, tokens)
    {
      var t := SkipBlank(s);
      var n := G.DigitRun(t);
      if n == 0 {
        return Missed;
      }
      DoInt(t[..n]);
      return Matched(t[n..]);
    }

    method Parenthesised(s: string) returns (scan: Scan)
      modifies this
      ensures Agrees(G.Parenthesised(s, old(tokens)), scan, tokens)
      decreases |s|, 1
    {
      var t := G.Char('(', s);
      if t.None? {
        return Missed;
      }
      scan := Expression(t.value);
      if scan.Matched? {
        var u := G.Char(')', scan.rest);
        scan := if u.Some? then Matched(u.value) else Missed;
      }
    }

    method Signed(sign: char, s: string) returns (scan: Scan)
      modifies this
      ensures Agrees(G.Signed(sign, s, old(tokens)), scan, tokens)
      decreases |s|, 1
    {
      var t := G.Char(sign, s);
      if t.None? {
        return Missed;
      }
      scan := Factor(t.value);
      if scan.Matched? && sign == '-' {
        var fault := DoNeg();
        if fault.Some? {
          scan := Thrown(fault.value);
        }
      }
    }
  }
}
