/** Postfix token lists, the expression trees they stand for, and the integers they denote. */
module Postfix {
  import opened Results
  import opened Decimal

  type Token = string

  datatype Op = Add | Subtract | Multiply | Divide

  /** The operator token the parser emits. */
  function OpName(op: Op): (name: Token)
    ensures IsOp(name)
  {
    match op
    case Add => "ADD"
    case Subtract => "SUBTRACT"
    case Multiply => "MULTIPLY"
    case Divide => "DIVIDE"
  }

  lemma OpNameInjective(a: Op, b: Op)
    requires OpName(a) == OpName(b)
    ensures a == b
  {
  }

  predicate IsOp(x: Token) {
    x == "ADD" || x == "SUBTRACT" || x == "MULTIPLY" || x == "DIVIDE"
  }

  function OpOf(x: Token): (op: Op)
    requires IsOp(x)
    ensures OpName(op) == x
  {
    if x == "ADD" then Add
    else if x == "SUBTRACT" then Subtract
    else if x == "MULTIPLY" then Multiply
    else Divide
  }

  /** The test both stack machines use: the first character is a digit or a minus sign. */
  predicate IsNumber(x: Token) {
    x != [] && (IsDigit(x[0]) || x[0] == '-')
  }

  lemma NumberIsNotOp(x: Token)
    requires IsNumber(x)
    ensures !IsOp(x) && x != "N"
  {
  }

  lemma WrittenIntIsNumber(n: int)
    ensures IsNumber(IntToString(n))
  {
  }

  // ----- Expressions -----

  datatype Expr = Lit(token: Token) | Bin(op: Op, left: Expr, right: Expr) {

    /** Every literal is a token the stack machines take for a number. */
    ghost predicate Proper() {
      match this
      case Lit(s) => IsNumber(s)
      case Bin(_, l, r) => l.Proper() && r.Proper()
    }

    /** Number of edges on the longest path down from the root. */
    function Height(): nat {
      match this
      case Lit(_) => 0
      case Bin(_, l, r) => 1 + if l.Height() > r.Height() then l.Height() else r.Height()
    }

    function RootToken(): Token {
      match this
      case Lit(s) => s
      case Bin(op, _, _) => OpName(op)
    }

    /** The postfix token list. */
    function Post(): (p: seq<Token>)
      ensures p != [] && p[|p| - 1] == RootToken()
    {
      match this
      case Lit(s) => [s]
      case Bin(op, l, r) => l.Post() + r.Post() + [OpName(op)]
    }
  }

  // ----- Values -----

  /** What stops a computation.  `EmptyStack` and `UnsetResult` are undefined behaviour in the
      C++ code, and so are `DivisionByZero` and `Overflow`; `BadCast` is an exception. */
  datatype Fault = BadCast | DivisionByZero | Overflow | EmptyStack | UnsetResult

  /** C++ division: the quotient is truncated toward zero. */
  function TruncatedQuotient(a: int, b: int): (q: int)
    requires b != 0
    ensures Abs(a - q * b) < Abs(b)
    ensures if a >= 0 then a - q * b >= 0 else a - q * b <= 0
  {
    if a >= 0 then a / b else -((-a) / b)
  }

  function Abs(n: int): int {
    if n < 0 then -n else n
  }

  /** What an operation on `a` and `b` means on unbounded integers: a quotient leaves a remainder that is
      smaller than the divisor and has the sign of the dividend. */
  predicate IsResult(op: Op, a: int, b: int, n: int) {
    match op
    case Add => n - b == a
    case Subtract => n + b == a
    case Multiply => n == a * b
    case Divide => Abs(a - n * b) < Abs(b) && if a >= 0 then a - n * b >= 0 else a - n * b <= 0
  }

  /** One `int` operation; a result outside the range of `int` is overflow. */
  function Apply(op: Op, a: int, b: int): (r: Result<int, Fault>)
    ensures r.Ok? ==> FitsInt(r.value) && IsResult(op, a, b, r.value)
    ensures r == Err(DivisionByZero) <==> op == Divide && b == 0
    ensures r.Err? ==> r.error == DivisionByZero || r.error == Overflow
  {
    if op == Divide && b == 0 then
      Err(DivisionByZero)
    else
      var n :=
        match op
        case Add => a + b
        case Subtract => a - b
        case Multiply => a * b
        case Divide => TruncatedQuotient(a, b);
      if FitsInt(n) then Ok(n) else Err(Overflow)
  }

  /** A product as large as its factor comes from a factor that is not 0. */
  lemma FactorAtLeast(q: int, b: int)
    requires q != 0
    ensures Abs(q * b) >= Abs(b)
  {
    if q > 0 && b >= 0 {
      assert (q - 1) * b >= 0;
    } else if q > 0 {
      assert (q - 1) * -b >= 0;
    } else if b >= 0 {
      assert (-q - 1) * b >= 0;
    } else {
      assert (-q - 1) * -b >= 0;
    }
  }

  /** The meaning of an operation determines its result. */
  lemma ResultUnique(op: Op, a: int, b: int, m: int, n: int)
    requires IsResult(op, a, b, m) && IsResult(op, a, b, n)
    ensures m == n
  {
    if op == Divide {
      assert (m - n) * b == (a - n * b) - (a - m * b);
      if m != n {
        FactorAtLeast(m - n, b);
      }
    }
  }

  /** An operation gives its exact result if that fits an `int`, and overflows exactly if it does not. */
  lemma ApplyExactly(op: Op, a: int, b: int, n: int)
    requires IsResult(op, a, b, n)
    ensures Apply(op, a, b) == if FitsInt(n) then Ok(n) else Err(Overflow)
  {
    if op == Divide {
      ResultUnique(op, a, b, n, TruncatedQuotient(a, b));
    }
  }

  /** A quotient times its divisor is no greater than the dividend. */
  lemma QuotientTimesDivisor(a: int, b: int, q: int)
    requires IsResult(Divide, a, b, q)
    ensures Abs(q * b) <= Abs(a)
  {
    if q != 0 {
      FactorAtLeast(q, b);
    }
  }

  lemma HalfOfProduct(q: int, b: int)
    requires b > 1 || b < -1
    ensures Abs(q * b) >= 2 * Abs(q)
  {
    if b > 1 {
      assert Abs(q) * (b - 2) >= 0;
    } else {
      assert Abs(q) * (-b - 2) >= 0;
    }
  }

  /** Division of two `int`s overflows in one case only. */
  lemma DivisionOverflow(a: int, b: int)
    requires FitsInt(a) && FitsInt(b)
    ensures Apply(Divide, a, b) == Err(Overflow) <==> a == INT_MIN && b == -1
  {
    if b > 1 || b < -1 {
      var q := TruncatedQuotient(a, b);
      QuotientTimesDivisor(a, b, q);
      HalfOfProduct(q, b);
    } else if b == 1 {
      ApplyExactly(Divide, a, b, a);
    } else if b == -1 {
      ApplyExactly(Divide, a, b, -a);
    }
  }

  function Literal(s: Token): (r: Result<int, Fault>)
    ensures r.Ok? ==> FitsInt(r.value)
  {
    match LexicalInt(s)
    case Some(n) => Ok(n)
    case None => Err(BadCast)
  }

  /** Recursive evaluation, left operand first. */
  function Eval(e: Expr): (r: Result<int, Fault>)
    ensures r.Ok? ==> FitsInt(r.value)
  {
    match e
    case Lit(s) => Literal(s)
    case Bin(op, l, r) =>
      var a :- Eval(l);
      var b :- Eval(r);
      Apply(op, a, b)
  }

  // ----- Well-formedness -----

  /** How one more token changes the number of complete operands that are pending;
      nothing if it is an operator that lacks one, or no token at all. */
  function DepthStep(d: nat, x: Token): Option<nat> {
    if IsOp(x) then (if d >= 2 then Some(d - 1) else None)
    else if IsNumber(x) then Some(d + 1)
    else None
  }

  /** The operands pending after `p`: the test a reader makes with a counter, without any tree. */
  function Depth(p: seq<Token>): Option<nat> {
    if p == [] then
      Some(0)
    else
      match Depth(p[..|p| - 1])
      case None => None
      case Some(d) => DepthStep(d, p[|p| - 1])
  }

  predicate WellFormed(p: seq<Token>) {
    Depth(p) == Some(1)
  }

  ghost function PostAll(es: seq<Expr>): seq<Token> {
    if es == [] then [] else PostAll(es[..|es| - 1]) + es[|es| - 1].Post()
  }

  lemma DepthSnoc(p: seq<Token>, x: Token)
    requires Depth(p).Some?
    ensures Depth(p + [x]) == DepthStep(Depth(p).value, x)
  {
    assert (p + [x])[..|p|] == p;
  }

  lemma PostAllSnoc(es: seq<Expr>, e: Expr)
    ensures PostAll(es + [e]) == PostAll(es) + e.Post()
  {
    assert (es + [e])[..|es|] == es;
  }

  lemma OperandStep(p: seq<Token>, x: Token)
    requires Depth(p).Some? && IsNumber(x)
    ensures Depth(p + [x]) == Some(Depth(p).value + 1)
  {
    hide Depth, IsOp, IsNumber;
    NumberIsNotOp(x);
    DepthSnoc(p, x);
  }

  lemma OperatorStep(p: seq<Token>, op: Op)
    requires Depth(p).Some? && Depth(p).value >= 2
    ensures Depth(p + [OpName(op)]) == Some(Depth(p).value - 1)
  {
    hide Depth, IsOp, OpName, IsNumber;
    DepthSnoc(p, OpName(op));
  }

  lemma PostOfBin(e: Expr)
    requires e.Bin?
    ensures e.Post() == e.left.Post() + e.right.Post() + [OpName(e.op)]
  {
  }

  lemma PostAfter(before: seq<Token>, e: Expr)
    requires e.Bin?
    ensures before + e.Post() == before + e.left.Post() + e.right.Post() + [OpName(e.op)]
  {
    hide Expr.Post, OpName;
    PostOfBin(e);
  }

  lemma {:induction false} PostIsWellFormed(e: Expr, before: seq<Token>)
    requires e.Proper() && Depth(before).Some?
    ensures Depth(before + e.Post()) == Some(Depth(before).value + 1)
  {
    hide IsOp, OpName, OpOf, IsNumber, Depth;
    match e
    case Lit(s) =>
      OperandStep(before, s);
    case Bin(op, l, r) =>
      hide Expr.Post;
      PostAfter(before, e);
      PostIsWellFormed(l, before);
      PostIsWellFormed(r, before + l.Post());
      OperatorStep(before + l.Post() + r.Post(), op);
  }

  /** Joining the two topmost pending trees under an operator. */
  lemma JoinTop(es: seq<Expr>, x: Token) returns (joined: seq<Expr>)
    requires |es| >= 2 && IsOp(x)
    requires forall e :: e in es ==> e.Proper()
    ensures |joined| == |es| - 1 && PostAll(joined) == PostAll(es) + [x]
    ensures forall e :: e in joined ==> e.Proper()
  {
    hide IsOp, OpName, OpOf, IsNumber, PostAll;
    var n := |es| - 2;
    var rest, l, r := es[..n], es[n], es[n + 1];
    var top := Bin(OpOf(x), l, r);
    joined := rest + [top];
    JoinedPost(rest, l, r, x);
    assert es == rest + [l] + [r];
    forall e | e in joined
      ensures e.Proper()
    {
      assert l in es && r in es && (e in rest ==> e in es);
    }
  }

  lemma JoinedPost(rest: seq<Expr>, l: Expr, r: Expr, x: Token)
    requires IsOp(x)
    ensures PostAll(rest + [Bin(OpOf(x), l, r)]) == PostAll(rest + [l] + [r]) + [x]
  {
    hide IsOp, OpName, OpOf, IsNumber, PostAll, Expr.Post;
    var top := Bin(OpOf(x), l, r);
    PostAllSnoc(rest, l);
    PostAllSnoc(rest + [l], r);
    PostAllSnoc(rest, top);
    PostAfter(PostAll(rest), top);
  }

  /** The operands pending after `p`, as trees. */
  lemma {:induction false} PendingTrees(p: seq<Token>) returns (es: seq<Expr>)
    requires Depth(p).Some?
    ensures |es| == Depth(p).value && PostAll(es) == p
    ensures forall e :: e in es ==> e.Proper()
  {
    hide IsOp, OpName, OpOf, IsNumber;
    if p == [] {
      return [];
    }
    var front, x := p[..|p| - 1], p[|p| - 1];
    assert p == front + [x];
    es := PendingTrees(front);
    if IsOp(x) {
      es := JoinTop(es, x);
    } else {
      PostAllSnoc(es, Lit(x));
      es := es + [Lit(x)];
    }
  }

  /** A list is well formed exactly when it is the postfix list of an expression. */
  lemma WellFormedIffPost(p: seq<Token>)
    ensures WellFormed(p) <==> exists e: Expr :: e.Proper() && e.Post() == p
  {
    if WellFormed(p) {
      var es := PendingTrees(p);
      assert es == [] + [es[0]];
      PostAllSnoc([], es[0]);
      assert es[0].Proper() && es[0].Post() == p;
    }
    forall e: Expr | e.Proper() && e.Post() == p
      ensures WellFormed(p)
    {
      PostIsWellFormed(e, []);
      assert [] + e.Post() == p;
    }
  }

  /** Splitting off the last token of two equal lists. */
  lemma SnocInjective(a: seq<Token>, x: Token, b: seq<Token>, y: Token)
    requires a + [x] == b + [y]
    ensures a == b && x == y
  {
    assert (a + [x])[..|a|] == (b + [y])[..|b|];
  }

  /** Two expressions written after something else can be told apart from the end. */
  lemma {:induction false} PostUnique(a: Expr, b: Expr, before: seq<Token>, before': seq<Token>)
    requires a.Proper() && b.Proper()
    requires before + a.Post() == before' + b.Post()
    ensures a == b && before == before'
  {
    hide IsOp, OpName, OpOf, IsNumber;
    var a0 := if a.Bin? then a.left.Post() + a.right.Post() else [];
    var b0 := if b.Bin? then b.left.Post() + b.right.Post() else [];
    assert before + a.Post() == (before + a0) + [a.RootToken()];
    assert before' + b.Post() == (before' + b0) + [b.RootToken()];
    SnocInjective(before + a0, a.RootToken(), before' + b0, b.RootToken());
    if a.Bin? && b.Bin? {
      assert before + a0 == before + a.left.Post() + a.right.Post();
      assert before' + b0 == before' + b.left.Post() + b.right.Post();
      PostUnique(a.right, b.right, before + a.left.Post(), before' + b.left.Post());
      PostUnique(a.left, b.left, before, before');
      OpNameInjective(a.op, b.op);
    } else {
      NumberIsNotOp(if a.Lit? then a.token else b.token);
      assert a.Lit? && b.Lit?;
      assert before + [] == before && before' + [] == before';
    }
  }
}
