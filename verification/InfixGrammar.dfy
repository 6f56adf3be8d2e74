/** The infix grammar: ordered alternatives and greedy repetition over characters, with actions that
    push tokens as soon as a part matches.  A part that fails later does not take its tokens back. */
module InfixGrammar {
  import opened Results
  import opened Decimal
  import opened Postfix
  import opened Text

  // ----- Characters -----

  function DigitRun(s: string): (n: nat)
    ensures n <= |s|
    ensures AllDigits(s[..n])
    ensures n < |s| ==> !IsDigit(s[n])
  {
    if s != [] && IsDigit(s[0]) then 1 + DigitRun(s[1..]) else 0
  }

  function OpChar(op: Op): char {
    match op
    case Add => '+'
    case Subtract => '-'
    case Multiply => '*'
    case Divide => '/'
  }

  // ----- Actions -----

  /** `do_neg`: replace the last token, which must read as an `int`, by its negation. */
  function DoNeg(stack: seq<Token>): Result<seq<Token>, Fault> {
    if stack == [] then
      Err(EmptyStack)
    else
      var n :- Literal(stack[|stack| - 1]);
      if FitsInt(-n) then Ok(stack[..|stack| - 1] + [IntToString(-n)]) else Err(Overflow)
  }

  // ----- Matching -----

  /** `Hit` gives the text not yet consumed; `Miss` keeps the tokens pushed on the way; `Throw` is an
      exception that leaves the parser, with the tokens that stay on the stack. */
  datatype Match =
    | Hit(rest: string, stack: seq<Token>)
    | Miss(stack: seq<Token>)
    | Throw(fault: Fault, stack: seq<Token>)

  /** One character after blanks. */
  function Char(c: char, s: string): (r: Option<string>)
    ensures r.Some? ==> |r.value| < |s|
  {
    var t := SkipBlank(s);
    if t != [] && t[0] == c then Some(t[1..]) else None
  }

  function Expression(s: string, stack: seq<Token>): (m: Match)
    ensures m.Hit? ==> |m.rest| < |s|
    decreases |s|, 4
  {
    match Term(s, stack)
    case Hit(t, stack1) => ExpressionLoop(t, stack1)
    case m => m
  }

  function ExpressionLoop(s: string, stack: seq<Token>): (m: Match)
    ensures m.Hit? ==> |m.rest| <= |s|
    ensures !m.Miss?
    decreases |s|, 4
  {
    match ExpressionStep(s, stack)
    case Hit(t, stack1) => ExpressionLoop(t, stack1)
    case Miss(stack1) => Hit(s, stack1)
    case Throw(x, stack1) => Throw(x, stack1)
  }

  function ExpressionStep(s: string, stack: seq<Token>): (m: Match)
    ensures m.Hit? ==> |m.rest| < |s|
    decreases |s|, 3
  {
    match OpTerm(Add, s, stack)
    case Miss(stack1) => OpTerm(Subtract, s, stack1)
    case m => m
  }

  function OpTerm(op: Op, s: string, stack: seq<Token>): (m: Match)
    ensures m.Hit? ==> |m.rest| < |s|
    decreases |s|, 2
  {
    match Char(OpChar(op), s)
    case None => Miss(stack)
    case Some(t) =>
      match Term(t, stack)
      case Hit(u, stack1) => Hit(u, stack1 + [OpName(op)])
      case m => m
  }

  function Term(s: string, stack: seq<Token>): (m: Match)
    ensures m.Hit? ==> |m.rest| < |s|
    decreases |s|, 3
  {
    match Factor(s, stack)
    case Hit(t, stack1) => TermLoop(t, stack1)
    case m => m
  }

  function TermLoop(s: string, stack: seq<Token>): (m: Match)
    ensures m.Hit? ==> |m.rest| <= |s|
    ensures !m.Miss?
    decreases |s|, 3
  {
    match TermStep(s, stack)
    case Hit(t, stack1) => TermLoop(t, stack1)
    case Miss(stack1) => Hit(s, stack1)
    case Throw(x, stack1) => Throw(x, stack1)
  }

  function TermStep(s: string, stack: seq<Token>): (m: Match)
    ensures m.Hit? ==> |m.rest| < |s|
    decreases |s|, 2
  {
    match OpFactor(Multiply, s, stack)
    case Miss(stack1) => OpFactor(Divide, s, stack1)
    case m => m
  }

  function OpFactor(op: Op, s: string, stack: seq<Token>): (m: Match)
    ensures m.Hit? ==> |m.rest| < |s|
    decreases |s|, 1
  {
    match Char(OpChar(op), s)
    case None => Miss(stack)
    case Some(t) =>
      match Factor(t, stack)
      case Hit(u, stack1) => Hit(u, stack1 + [OpName(op)])
      case m => m
  }

  /** Four alternatives, tried in order at the same place; the stack is handed on. */
  function Factor(s: string, stack: seq<Token>): (m: Match)
    ensures m.Hit? ==> |m.rest| < |s|
    decreases |s|, 2
  {
    match Digits(s, stack)
    case Miss(stack1) =>
      (match Parenthesised(s, stack1)
       case Miss(stack2) =>
         (match Signed('-', s, stack2)
          case Miss(stack3) => Signed('+', s, stack3)
          case m => m)
       case m => m)
    case m => m
  }

  /** A run of digits without blanks inside; `do_int` pushes its text. */
  function Digits(s: string, stack: seq<Token>): (m: Match)
    ensures m.Hit? ==> |m.rest| < |s|
  {
    var t := SkipBlank(s);
    var n := DigitRun(t);
    if n == 0 then Miss(stack) else Hit(t[n..], stack + [t[..n]])
  }

  function Parenthesised(s: string, stack: seq<Token>): (m: Match)
    ensures m.Hit? ==> |m.rest| < |s|
    decreases |s|, 1
  {
    match Char('(', s)
    case None => Miss(stack)
    case Some(t) =>
      match Expression(t, stack)
      case Hit(u, stack1) =>
        (match Char(')', u)
         case None => Miss(stack1)
         case Some(v) => Hit(v, stack1))
      case m => m
  }

  /** A factor after a sign; `do_neg` runs for the minus. */
  function Signed(sign: char, s: string, stack: seq<Token>): (m: Match)
    ensures m.Hit? ==> |m.rest| < |s|
    decreases |s|, 1
  {
    match Char(sign, s)
    case None => Miss(stack)
    case Some(t) =>
      match Factor(t, stack)
      case Hit(u, stack1) =>
        if sign == '-' then
          (match DoNeg(stack1)
           case Ok(stack2) => Hit(u, stack2)
           case Err(x) => Throw(x, stack1))
        else
          Hit(u, stack1)
      case m => m
  }

  // ----- Syntax trees -----

  /** Syntax trees with their blanks, so that the text of a tree is a function of it. */
  datatype FactorTree =
    | Number(ws: string, digits: string)
    | Group(ws: string, sum: SumTree, close: string)
    | Sign(ws: string, minus: bool, operand: FactorTree)
  {
    predicate Legal() {
      && AllBlank(ws)
      && match this
         case Number(_, d) => d != [] && AllDigits(d)
         case Group(_, e, close) => e.Legal() && AllBlank(close)
         case Sign(_, _, f) => f.Legal()
    }

    function Text(): string {
      match this
      case Number(ws, d) => ws + d
      case Group(ws, e, close) => ws + "(" + e.Text() + close + ")"
      case Sign(ws, minus, f) => ws + (if minus then "-" else "+") + f.Text()
    }

    /** The tokens the actions leave, or the exception `do_neg` throws. */
    function Emit(): (r: Result<seq<Token>, Fault>)
      ensures r.Ok? ==> r.value != []
    {
      match this
      case Number(_, d) => Ok([d])
      case Group(_, e, _) => e.Emit()
      case Sign(_, minus, f) =>
        var p :- f.Emit();
        if minus then DoNeg(p) else Ok(p)
    }

    /** If an action throws, the tokens that are left. */
    function Left(): seq<Token> {
      match this
      case Number(_, d) => [d]
      case Group(_, e, _) => e.Left()
      case Sign(_, _, f) => if f.Emit().Ok? then f.Emit().value else f.Left()
    }

    /** The value on paper. */
    function Value(): Result<int, Fault> {
      match this
      case Number(_, d) => Literal(d)
      case Group(_, e, _) => e.Value()
      case Sign(_, minus, f) =>
        var n :- f.Value();
        if !minus then Ok(n) else if FitsInt(-n) then Ok(-n) else Err(Overflow)
    }
  }

  /** What follows the first factor of a product, or the first product of a sum, from left to right. */
  datatype ProductTail = NoFactor | MoreFactors(ws: string, op: Op, factor: FactorTree, tail: ProductTail) {
    predicate Legal() {
      MoreFactors? ==> AllBlank(ws) && (op == Multiply || op == Divide) && factor.Legal() && tail.Legal()
    }

    function Text(): string {
      if NoFactor? then "" else ws + [OpChar(op)] + factor.Text() + tail.Text()
    }

    function Emit(): Result<seq<Token>, Fault> {
      if NoFactor? then
        Ok([])
      else
        var p :- factor.Emit();
        var q :- tail.Emit();
        Ok(p + [OpName(op)] + q)
    }

    function Left(): seq<Token> {
      if NoFactor? then []
      else if factor.Emit().Err? then factor.Left()
      else factor.Emit().value + [OpName(op)] + tail.Left()
    }

    /** Left association: the value so far is the left operand. */
    function Value(acc: int): Result<int, Fault> {
      if NoFactor? then
        Ok(acc)
      else
        var n :- factor.Value();
        var r :- Apply(op, acc, n);
        tail.Value(r)
    }
  }

  datatype ProductTree = ProductTree(first: FactorTree, tail: ProductTail) {
    predicate Legal() {
      first.Legal() && tail.Legal()
    }

    function Text(): string {
      first.Text() + tail.Text()
    }

    function Emit(): (r: Result<seq<Token>, Fault>)
      ensures r.Ok? ==> r.value != []
    {
      var p :- first.Emit();
      var q :- tail.Emit();
      Ok(p + q)
    }

    function Left(): seq<Token> {
      if first.Emit().Err? then first.Left() else first.Emit().value + tail.Left()
    }

    function Value(): Result<int, Fault> {
      var n :- first.Value();
      tail.Value(n)
    }
  }

  datatype SumTail = NoProduct | MoreProducts(ws: string, op: Op, product: ProductTree, tail: SumTail) {
    predicate Legal() {
      MoreProducts? ==> AllBlank(ws) && (op == Add || op == Subtract) && product.Legal() && tail.Legal()
    }

    function Text(): string {
      if NoProduct? then "" else ws + [OpChar(op)] + product.Text() + tail.Text()
    }

    function Emit(): Result<seq<Token>, Fault> {
      if NoProduct? then
        Ok([])
      else
        var p :- product.Emit();
        var q :- tail.Emit();
        Ok(p + [OpName(op)] + q)
    }

    function Left(): seq<Token> {
      if NoProduct? then []
      else if product.Emit().Err? then product.Left()
      else product.Emit().value + [OpName(op)] + tail.Left()
    }

    function Value(acc: int): Result<int, Fault> {
      if NoProduct? then
        Ok(acc)
      else
        var n :- product.Value();
        var r :- Apply(op, acc, n);
        tail.Value(r)
    }
  }

  datatype SumTree = SumTree(first: ProductTree, tail: SumTail) {
    predicate Legal() {
      first.Legal() && tail.Legal()
    }

    function Text(): string {
      first.Text() + tail.Text()
    }

    function Emit(): (r: Result<seq<Token>, Fault>)
      ensures r.Ok? ==> r.value != []
    {
      var p :- first.Emit();
      var q :- tail.Emit();
      Ok(p + q)
    }

    function Left(): seq<Token> {
      if first.Emit().Err? then first.Left() else first.Emit().value + tail.Left()
    }

    function Value(): Result<int, Fault> {
      var n :- first.Value();
      tail.Value(n)
    }
  }
}
