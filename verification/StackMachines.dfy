/** The two postfix stack machines: `Computer` on the client, `ServerMethodCompute` on the server. */
module StackMachines {
  import opened Results
  import opened Decimal
  import opened DecimalLaws
  import opened Postfix

  /** A machine between two tokens.  The local variable `res` outlives a step: a token that is
      neither a number nor an operator leaves it at its previous value. */
  datatype Machine = Machine(nums: seq<int>, res: Option<int>)

  type Run = Result<Machine, Fault>

  function Push(m: Machine, s: Token): Run {
    var n :- Literal(s);
    Ok(m.(nums := m.nums + [n]))
  }

  /** Pop `arg1`, then `arg2`, compute, push. */
  function Operate(m: Machine, op: Op): Run {
    var k := |m.nums|;
    if k < 2 then
      Err(EmptyStack)
    else
      var n :- Apply(op, m.nums[k - 2], m.nums[k - 1]);
      Ok(Machine(m.nums[..k - 2] + [n], Some(n)))
  }

  /** One turn of the client's loop.  An unknown token pops nothing and pushes the old `res`. */
  function ClientStep(m: Machine, s: Token): Run {
    if IsNumber(s) then Push(m, s)
    else if IsOp(s) then Operate(m, OpOf(s))
    else if m.res.None? then Err(UnsetResult)
    else Ok(m.(nums := m.nums + [m.res.value]))
  }

  /** One turn of the server's loop.  An unknown token pops two numbers and pushes the old `res`. */
  function ServerStep(m: Machine, s: Token): Run {
    if IsNumber(s) then Push(m, s)
    else if |m.nums| < 2 then Err(EmptyStack)
    else if IsOp(s) then Operate(m, OpOf(s))
    else if m.res.None? then Err(UnsetResult)
    else Ok(m.(nums := m.nums[..|m.nums| - 2] + [m.res.value]))
  }

  function ClientRun(m: Machine, p: seq<Token>): Run
    decreases |p|
  {
    if p == [] then Ok(m) else var m' :- ClientStep(m, p[0]); ClientRun(m', p[1..])
  }

  function ServerRun(m: Machine, p: seq<Token>): Run
    decreases |p|
  {
    if p == [] then Ok(m) else var m' :- ServerStep(m, p[0]); ServerRun(m', p[1..])
  }

  function Top(r: Run): Result<int, Fault> {
    var m :- r;
    if m.nums == [] then Err(EmptyStack) else Ok(m.nums[|m.nums| - 1])
  }

  /** `Computer::compute`: `res` starts at 0, the answer is the text of the top number. */
  function ClientCompute(p: seq<Token>): Result<string, Fault> {
    var n :- Top(ClientRun(Machine([], Some(0)), p));
    Ok(IntToString(n))
  }

  /** `ServerMethodCompute::execute` on a new method object: `res` starts unset. */
  function ServerCompute(p: seq<Token>): Result<int, Fault> {
    Top(ServerRun(Machine([], None), p))
  }

  // ----- The programs -----

  class Computer {
    const stack: seq<Token>

    constructor (s: seq<Token>)
      ensures stack == s
    {
      stack := s;
    }

    method Compute() returns (r: Result<string, Fault>)
      ensures r == ClientCompute(stack)
    {
      var nums: seq<int> := [];
      var res := 0;
      var it := 0;
      while it < |stack|
        invariant 0 <= it <= |stack|
        invariant ClientRun(Machine(nums, Some(res)), stack[it..]) == ClientRun(Machine([], Some(0)), stack)
      {
        var pos := stack[it];
        assert stack[it..][0] == pos && stack[it..][1..] == stack[it + 1..];
        if IsNumber(pos) {
          var num := LexicalInt(pos);
          if num.None? {
            return Err(BadCast);
          }
          nums := nums + [num.value];
        } else {
          if IsOp(pos) {
            if |nums| < 2 {
              return Err(EmptyStack);
            }
            var arg1, arg2 := nums[|nums| - 1], nums[|nums| - 2];
            nums := nums[..|nums| - 2];
            var r := Apply(OpOf(pos), arg2, arg1);
            if r.Err? {
              return Err(r.error);
            }
            res := r.value;
          }
          nums := nums + [res];
        }
        it := it + 1;
      }
      if nums == [] {
        return Err(EmptyStack);
      }
      return Ok(IntToString(nums[|nums| - 1]));
    }
  }

  class ServerMethodCompute {
    var numStack: seq<int>

    /** A factory makes one object for each request. */
    constructor ()
      ensures numStack == []
    {
      numStack := [];
    }

    /** The number stack is a field: a run starts on what is there and leaves its answer there. */
    method Execute(params: seq<Token>) returns (result: Result<int, Fault>)
      modifies this
      ensures result == Top(ServerRun(Machine(old(numStack), None), params))
      ensures result.Ok? ==>
                numStack == ServerRun(Machine(old(numStack), None), params).value.nums
    {
      hide LexicalInt, Apply, IsNumber, IsOp, OpOf;
      var res: Option<int> := None;
      var i := 0;
      while i < |params|
        invariant 0 <= i <= |params|
        invariant ServerRun(Machine(numStack, res), params[i..]) == ServerRun(Machine(old(numStack), None), params)
      {
        var pos := params[i];
        assert params[i..][0] == pos && params[i..][1..] == params[i + 1..];
        if IsNumber(pos) {
          var num := LexicalInt(pos);
          if num.None? {
            return Err(BadCast);
          }
          numStack := numStack + [num.value];
        } else {
          if |numStack| < 2 {
            return Err(EmptyStack);
          }
          var arg1, arg2 := numStack[|numStack| - 1], numStack[|numStack| - 2];
          if IsOp(pos) {
            var r := Apply(OpOf(pos), arg2, arg1);
            if r.Err? {
              return Err(r.error);
            }
            res := Some(r.value);
          } else if res.None? {
            return Err(UnsetResult);
          }
          numStack := numStack[..|numStack| - 2] + [res.value];
        }
        i := i + 1;
      }
      if numStack == [] {
        return Err(EmptyStack);
      }
      return Ok(numStack[|numStack| - 1]);
    }
  }

  // ----- What they compute -----

  function ResultAfter(e: Expr, res: Option<int>): Option<int> {
    if e.Lit? || Eval(e).Err? then res else Some(Eval(e).value)
  }

  /** The machine state an expression's postfix list leads to. */
  function Answer(m: Machine, e: Expr): Run {
    var n :- Eval(e);
    Ok(Machine(m.nums + [n], ResultAfter(e, m.res)))
  }

  /** On the list of an expression the client's machine pushes exactly the value of the expression
      and leaves everything below it alone; if evaluation faults, the run stops with that fault. */
  lemma {:induction false} ClientRunsPost(e: Expr, m: Machine, rest: seq<Token>)
    requires e.Proper()
    ensures ClientRun(m, e.Post() + rest) == (var m' :- Answer(m, e); ClientRun(m', rest))
  {
    hide IsOp, OpName, OpOf, IsNumber, Apply, Literal;
    match e
    case Lit(s) =>
      assert ([s] + rest)[1..] == rest;
    case Bin(op, l, r) =>
      var after := [OpName(op)] + rest;
      assert e.Post() + rest == l.Post() + (r.Post() + after);
      ClientRunsPost(l, m, r.Post() + after);
      if Eval(l).Ok? {
        var m1 := Answer(m, l).value;
        ClientRunsPost(r, m1, after);
        if Eval(r).Ok? {
          OperatorStep(op, m1, r, rest);
        }
      }
  }

  lemma OperatorStep(op: Op, m1: Machine, r: Expr, rest: seq<Token>)
    requires m1.nums != [] && Eval(r).Ok?
    ensures
      var m2 := Answer(m1, r).value;
      ClientRun(m2, [OpName(op)] + rest)
      == (var n :- Apply(op, m1.nums[|m1.nums| - 1], Eval(r).value);
          ClientRun(Machine(m1.nums[..|m1.nums| - 1] + [n], Some(n)), rest))
  {
    hide Apply, Eval;
    var m2 := Answer(m1, r).value;
    var k := |m1.nums|;
    assert OpOf(OpName(op)) == op && !IsNumber(OpName(op));
    assert m2.nums[..k - 1] == m1.nums[..k - 1] && m2.nums[k - 1] == m1.nums[k - 1];
    assert ([OpName(op)] + rest)[1..] == rest;
  }

  /** Numbers and operators: all that the parser ever emits. */
  predicate Known(p: seq<Token>) {
    forall i :: 0 <= i < |p| ==> IsKnown(p[i])
  }

  predicate IsKnown(x: Token) {
    IsNumber(x) || IsOp(x)
  }

  function Nums(r: Run): Result<seq<int>, Fault> {
    var m :- r;
    Ok(m.nums)
  }

  /** On numbers and operators, in any order, the two loops do the same to any number stack. */
  lemma {:induction false} SameRun(client: Machine, server: Machine, p: seq<Token>)
    requires Known(p) && client.nums == server.nums
    ensures Nums(ServerRun(server, p)) == Nums(ClientRun(client, p))
    decreases |p|
  {
    hide IsOp, OpOf, IsNumber, Apply, Literal;
    if p != [] {
      var c, s := ClientStep(client, p[0]), ServerStep(server, p[0]);
      assert Nums(c) == Nums(s);
      if c.Ok? {
        SameRun(c.value, s.value, p[1..]);
      }
    }
  }

  /** The two machines give the same answer or the same fault on every list of numbers and operators. */
  lemma MachinesAgree(p: seq<Token>)
    requires Known(p)
    ensures ClientCompute(p) == (var n :- ServerCompute(p); Ok(IntToString(n)))
  {
    SameRun(Machine([], Some(0)), Machine([], None), p);
  }

  lemma {:induction false} PostIsKnown(e: Expr)
    requires e.Proper()
    ensures Known(e.Post())
  {
    hide IsOp, OpName, IsNumber;
    if e.Bin? {
      PostIsKnown(e.left);
      PostIsKnown(e.right);
    }
  }

  /** On a well-formed list both machines give exactly the value of the expression, or its first
      fault; so neither ever pops an empty stack. */
  lemma MachinesEvaluate(e: Expr)
    requires e.Proper()
    ensures ServerCompute(e.Post()) == Eval(e)
    ensures ClientCompute(e.Post()) == (var n :- Eval(e); Ok(IntToString(n)))
    ensures Eval(e).Err? ==> Eval(e).error !in {EmptyStack, UnsetResult}
  {
    ClientRunsPost(e, Machine([], Some(0)), []);
    assert e.Post() + [] == e.Post();
    PostIsKnown(e);
    SameRun(Machine([], Some(0)), Machine([], None), e.Post());
    EvalFaults(e);
  }

  lemma {:induction false} EvalFaults(e: Expr)
    ensures Eval(e).Err? ==> Eval(e).error in {BadCast, DivisionByZero, Overflow}
  {
    if e.Bin? {
      EvalFaults(e.left);
      EvalFaults(e.right);
    }
  }

  /** Both runs leave one number on top of whatever the stack held before. */
  lemma ServerLeavesBaseAlone(e: Expr, base: seq<int>)
    requires e.Proper() && Eval(e).Ok?
    ensures Nums(ServerRun(Machine(base, None), e.Post())) == Ok(base + [Eval(e).value])
  {
    ClientRunsPost(e, Machine(base, Some(0)), []);
    assert e.Post() + [] == e.Post();
    PostIsKnown(e);
    SameRun(Machine(base, Some(0)), Machine(base, None), e.Post());
  }

  // ----- What each token does -----

  predicate InRange32(n: int) {
    -2147483648 <= n <= 2147483647
  }

  /** A token that begins with a digit or a minus is pushed as the number it is the numeral of. */
  lemma NumberToken(m: Machine, x: Token)
    requires x != "" && (x[0] in DIGITS || x[0] == '-')
    ensures ClientStep(m, x) ==
            if IsNumeral(x) && InRange32(NumeralValue(x)) then Ok(m.(nums := m.nums + [NumeralValue(x)]))
            else Err(BadCast)
    ensures ServerStep(m, x) == ClientStep(m, x)
  {
    hide LexicalInt, IsNumeral, NumeralValue;
    DigitTable(x[0]);
    LexicalIntExactly(x, NumeralValue(x));
    if LexicalInt(x).Some? {
      LexicalIntExactly(x, LexicalInt(x).value);
    }
  }

  /** The four words, on a stack that ends with `a` and `b`. */
  function OperatorOutcome(base: seq<int>, fault: bool, n: int): Run {
    if fault then Err(DivisionByZero) else if InRange32(n) then Ok(Machine(base + [n], Some(n))) else Err(Overflow)
  }

  lemma OperatorWords(base: seq<int>, a: int, b: int, res: Option<int>)
    ensures
      var m := Machine(base + [a, b], res);
      && ClientStep(m, "ADD") == ServerStep(m, "ADD") == OperatorOutcome(base, false, a + b)
      && ClientStep(m, "SUBTRACT") == ServerStep(m, "SUBTRACT") == OperatorOutcome(base, false, a - b)
      && ClientStep(m, "MULTIPLY") == ServerStep(m, "MULTIPLY") == OperatorOutcome(base, false, a * b)
      && ClientStep(m, "DIVIDE") == ServerStep(m, "DIVIDE")
         == OperatorOutcome(base, b == 0, if b == 0 then 0 else TruncatedQuotient(a, b))
  {
    hide Apply, TruncatedQuotient;
    WordsAreOperators();
    var m := Machine(base + [a, b], res);
    assert m.nums[..|base|] == base && m.nums[|base|] == a && m.nums[|base| + 1] == b;
    ApplyExactly(Add, a, b, a + b);
    ApplyExactly(Subtract, a, b, a - b);
    ApplyExactly(Multiply, a, b, a * b);
    if b != 0 {
      ApplyExactly(Divide, a, b, TruncatedQuotient(a, b));
    } else {
      assert Apply(Divide, a, b) == Err(DivisionByZero);
    }
  }

  /** The operator words of both machines. */
  lemma WordsAreOperators()
    ensures OpOf("ADD") == Add && OpOf("SUBTRACT") == Subtract
    ensures OpOf("MULTIPLY") == Multiply && OpOf("DIVIDE") == Divide
    ensures forall x :: x in {"ADD", "SUBTRACT", "MULTIPLY", "DIVIDE"} ==> IsOp(x) && !IsNumber(x)
    ensures forall x :: IsOp(x) ==> x in {"ADD", "SUBTRACT", "MULTIPLY", "DIVIDE"}
  {
  }

  /** Any other token makes the client push its last result again, and the server, which has popped two numbers
      by then, replace them by its last result. */
  lemma OtherToken(m: Machine, x: Token)
    requires x == "" || (x[0] !in DIGITS && x[0] != '-')
    requires x !in {"ADD", "SUBTRACT", "MULTIPLY", "DIVIDE"}
    ensures ClientStep(m, x) ==
            if m.res.None? then Err(UnsetResult) else Ok(Machine(m.nums + [m.res.value], m.res))
    ensures ServerStep(m, x) ==
            if |m.nums| < 2 then Err(EmptyStack)
            else if m.res.None? then Err(UnsetResult)
            else Ok(Machine(m.nums[..|m.nums| - 2] + [m.res.value], m.res))
  {
    WordsAreOperators();
    if x != "" {
      DigitTable(x[0]);
    }
  }

  /** The words the parser writes. */
  lemma WordsOfParser()
    ensures OpName(Add) == "ADD" && OpName(Subtract) == "SUBTRACT"
    ensures OpName(Multiply) == "MULTIPLY" && OpName(Divide) == "DIVIDE"
  {
  }

  // ----- Unknown tokens -----

  lemma {:induction false} ClientRunSnoc(m: Machine, p: seq<Token>, x: Token)
    ensures ClientRun(m, p + [x]) == (var m' :- ClientRun(m, p); ClientStep(m', x))
    decreases |p|
  {
    hide ClientStep;
    if p == [] {
      assert ([] + [x])[1..] == [];
    } else {
      assert (p + [x])[1..] == p[1..] + [x];
      if ClientStep(m, p[0]).Ok? {
        ClientRunSnoc(ClientStep(m, p[0]).value, p[1..], x);
      }
    }
  }

  lemma {:induction false} ServerRunSnoc(m: Machine, p: seq<Token>, x: Token)
    ensures ServerRun(m, p + [x]) == (var m' :- ServerRun(m, p); ServerStep(m', x))
    decreases |p|
  {
    hide ServerStep;
    if p == [] {
      assert ([] + [x])[1..] == [];
    } else {
      assert (p + [x])[1..] == p[1..] + [x];
      if ServerStep(m, p[0]).Ok? {
        ServerRunSnoc(ServerStep(m, p[0]).value, p[1..], x);
      }
    }
  }

  /** The client's `res` is never unset. */
  lemma {:induction false} ClientKeepsResult(m: Machine, p: seq<Token>)
    requires m.res.Some? && ClientRun(m, p).Ok?
    ensures ClientRun(m, p).value.res.Some?
    decreases |p|
  {
    hide IsOp, OpOf, IsNumber, Apply, Literal;
    if p != [] {
      ClientKeepsResult(ClientStep(m, p[0]).value, p[1..]);
    }
  }

  /** On equal stacks one token is treated alike exactly if it is known. */
  lemma SameStepExactly(client: Machine, server: Machine, x: Token)
    requires client.nums == server.nums && client.res.Some?
    ensures Nums(ClientStep(client, x)) == Nums(ServerStep(server, x)) <==> IsKnown(x)
  {
    hide IsOp, OpOf, IsNumber, Apply, Literal;
    if !IsKnown(x) && ServerStep(server, x).Ok? {
      assert |ClientStep(client, x).value.nums| == |client.nums| + 1;
      assert |ServerStep(server, x).value.nums| == |client.nums| - 1;
    }
  }

  /** The number stacks, or the faults, are the same after every prefix of the list. */
  predicate AgreeThroughout(client: Machine, server: Machine, p: seq<Token>) {
    forall k :: 0 <= k <= |p| ==> Nums(ClientRun(client, p[..k])) == Nums(ServerRun(server, p[..k]))
  }

  /** No unknown token is reached before a fault. */
  predicate KnownUntilFault(client: Machine, p: seq<Token>) {
    forall k :: 0 <= k < |p| && ClientRun(client, p[..k]).Ok? ==> IsKnown(p[k])
  }

  lemma AgreeSnoc(client: Machine, server: Machine, p: seq<Token>, x: Token)
    ensures AgreeThroughout(client, server, p + [x]) <==>
            AgreeThroughout(client, server, p)
            && Nums(ClientRun(client, p + [x])) == Nums(ServerRun(server, p + [x]))
    ensures KnownUntilFault(client, p + [x]) <==>
            KnownUntilFault(client, p) && (ClientRun(client, p).Ok? ==> IsKnown(x))
  {
    hide ClientRun, ServerRun, IsKnown;
    var q := p + [x];
    assert forall k :: 0 <= k <= |p| ==> q[..k] == p[..k];
    assert q[..|q|] == q && p[..|p|] == p && q[|p|] == x;
    if KnownUntilFault(client, q) {
      forall k | 0 <= k < |p| && ClientRun(client, p[..k]).Ok?
        ensures IsKnown(p[k])
      {
        assert q[..k] == p[..k] && q[k] == p[k];
      }
      assert ClientRun(client, q[..|p|]).Ok? ==> IsKnown(q[|p|]);
    }
  }

  /** The machines, started on equal stacks, go together through a list exactly as long as they meet no unknown
      token: on the first one they part, whatever `res` holds. */
  lemma {:induction false} AgreeExactly(client: Machine, server: Machine, p: seq<Token>)
    requires client.nums == server.nums && client.res.Some?
    ensures AgreeThroughout(client, server, p) <==> KnownUntilFault(client, p)
    decreases |p|
  {
    hide ClientRun, ServerRun, ClientStep, ServerStep, IsKnown, AgreeThroughout, KnownUntilFault;
    if p == [] {
      AgreeOnNothing(client, server);
    } else {
      var front, x := p[..|p| - 1], p[|p| - 1];
      assert p == front + [x];
      AgreeExactly(client, server, front);
      AgreeSnoc(client, server, front, x);
      ClientRunSnoc(client, front, x);
      ServerRunSnoc(server, front, x);
      AgreeAtEnd(client, server, front);
      if AgreeThroughout(client, server, front) && ClientRun(client, front).Ok? {
        ClientKeepsResult(client, front);
        SameStepExactly(ClientRun(client, front).value, ServerRun(server, front).value, x);
      }
    }
  }

  lemma AgreeOnNothing(client: Machine, server: Machine)
    requires client.nums == server.nums
    ensures AgreeThroughout(client, server, []) && KnownUntilFault(client, [])
  {
  }

  lemma AgreeAtEnd(client: Machine, server: Machine, p: seq<Token>)
    ensures AgreeThroughout(client, server, p) ==> Nums(ClientRun(client, p)) == Nums(ServerRun(server, p))
  {
    assert p[..|p|] == p;
  }

  /** Alone, an unknown token makes the client answer a spurious zero and the server pop an empty stack. */
  lemma UnknownTokenTellsThemApart(x: Token)
    requires !IsKnown(x)
    ensures ClientCompute([x]) == Ok("0")
    ensures ServerCompute([x]) == Err(EmptyStack)
  {
    var p := [x];
    var start := Machine([], Some(0));
    assert p[0] == x && start.nums + [0] == [0];
    assert ClientStep(start, x) == Ok(Machine([0], Some(0)));
    assert ClientRun(Machine([0], Some(0)), p[1..]) == Ok(Machine([0], Some(0)));
    assert p[1..] == [] && IntToString(0) == "0";
  }
}
