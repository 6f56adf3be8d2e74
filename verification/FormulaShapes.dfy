/** What small formulas are parsed to: precedence, association, brackets and signs, character by character. */
module FormulaShapes {
  import opened Results
  import opened Decimal
  import opened DecimalLaws
  import opened Postfix
  import opened InfixGrammar
  import opened InfixToPostfix
  import opened StackMachines

  /** The word an operator character is parsed to. */
  function Word(c: char): Token {
    match c
    case '+' => "ADD"
    case '-' => "SUBTRACT"
    case '*' => "MULTIPLY"
    case _ => "DIVIDE"
  }

  predicate Operator(c: char) {
    c == '+' || c == '-' || c == '*' || c == '/'
  }

  /** `*` and `/` bind tighter than `+` and `-`. */
  predicate Tight(c: char) {
    c == '*' || c == '/'
  }

  predicate DigitText(s: string) {
    s != "" && forall c :: c in s ==> c in DIGITS
  }

  function Named(c: char): Op {
    match c
    case '+' => Add
    case '-' => Subtract
    case '*' => Multiply
    case _ => Divide
  }

  lemma NamedWord(c: char)
    requires Operator(c)
    ensures OpName(Named(c)) == Word(c) && OpChar(Named(c)) == c
    ensures Tight(c) <==> Named(c) == Multiply || Named(c) == Divide
  {
    WordsOfParser();
  }

  function One(a: string): ProductTree {
    ProductTree(Number("", a), NoFactor)
  }

  function Two(a: string, o: char, b: string): ProductTree {
    ProductTree(Number("", a), MoreFactors("", Named(o), Number("", b), NoFactor))
  }

  /** The syntax tree of a formula with two operators. */
  function Shape(a: string, o1: char, b: string, o2: char, c: string): SumTree {
    if Tight(o1) && Tight(o2) then
      var tail := MoreFactors("", Named(o1), Number("", b), MoreFactors("", Named(o2), Number("", c), NoFactor));
      SumTree(ProductTree(Number("", a), tail), NoProduct)
    else if Tight(o1) then
      SumTree(Two(a, o1, b), MoreProducts("", Named(o2), One(c), NoProduct))
    else if Tight(o2) then
      SumTree(One(a), MoreProducts("", Named(o1), Two(b, o2, c), NoProduct))
    else
      SumTree(One(a), MoreProducts("", Named(o1), One(b), MoreProducts("", Named(o2), One(c), NoProduct)))
  }

  lemma NumberTree(a: string)
    requires DigitText(a)
    ensures Number("", a).Legal() && Number("", a).Text() == a && Number("", a).Emit() == Ok([a])
    ensures One(a).Legal() && One(a).Text() == a && One(a).Emit() == Ok([a])
  {
    AllDigitsExactly(a);
    assert "" + a == a && a + "" == a && [a] + [] == [a];
    assert NoFactor.Emit() == Ok([]) && NoFactor.Text() == "";
  }

  lemma FactorThen(o: char, b: string, more: ProductTail, text: string, p: seq<Token>)
    requires DigitText(b) && Tight(o) && more.Legal() && more.Text() == text && more.Emit() == Ok(p)
    ensures
      var tail := MoreFactors("", Named(o), Number("", b), more);
      tail.Legal() && tail.Text() == [o] + b + text && tail.Emit() == Ok([b, Word(o)] + p)
  {
    hide FactorTree.Legal, FactorTree.Text, FactorTree.Emit, Named, Word;
    NumberTree(b);
    AnyFactorThen(o, Number("", b), more, text, p);
    assert [b] + [Word(o)] + p == [b, Word(o)] + p;
  }

  lemma AnyFactorThen(o: char, f: FactorTree, more: ProductTail, text: string, p: seq<Token>)
    requires Tight(o) && f.Legal() && f.Emit().Ok? && more.Legal() && more.Text() == text && more.Emit() == Ok(p)
    ensures
      var tail := MoreFactors("", Named(o), f, more);
      tail.Legal() && tail.Text() == [o] + f.Text() + text && tail.Emit() == Ok(f.Emit().value + [Word(o)] + p)
  {
    hide OpName, OpChar, FactorTree.Legal, FactorTree.Text, FactorTree.Emit;
    NamedWord(o);
    assert "" + [o] + f.Text() + text == [o] + f.Text() + text;
  }

  lemma ProductThen(o: char, t: ProductTree, more: SumTail, text: string, p: seq<Token>)
    requires Operator(o) && !Tight(o) && t.Legal() && t.Emit().Ok?
    requires more.Legal() && more.Text() == text && more.Emit() == Ok(p)
    ensures
      var tail := MoreProducts("", Named(o), t, more);
      && tail.Legal() && tail.Text() == [o] + t.Text() + text
      && tail.Emit() == Ok(t.Emit().value + [Word(o)] + p)
  {
    hide OpName, OpChar, ProductTree.Legal, ProductTree.Text, ProductTree.Emit;
    NamedWord(o);
    assert "" + [o] + t.Text() + text == [o] + t.Text() + text;
  }

  lemma NothingMore()
    ensures NoFactor.Legal() && NoFactor.Emit() == Ok([]) && NoFactor.Text() == ""
    ensures NoProduct.Legal() && NoProduct.Emit() == Ok([]) && NoProduct.Text() == ""
  {
  }

  lemma ProductOf(a: string, tail: ProductTail, text: string, p: seq<Token>)
    requires DigitText(a) && tail.Legal() && tail.Text() == text && tail.Emit() == Ok(p)
    ensures
      var t := ProductTree(Number("", a), tail);
      t.Legal() && t.Text() == a + text && t.Emit() == Ok([a] + p)
  {
    hide FactorTree.Legal, FactorTree.Text, FactorTree.Emit, ProductTail.Legal, ProductTail.Text, ProductTail.Emit;
    NumberTree(a);
  }

  lemma SumOf(t: ProductTree, tail: SumTail, text: string, p: seq<Token>)
    requires t.Legal() && t.Emit().Ok? && tail.Legal() && tail.Text() == text && tail.Emit() == Ok(p)
    ensures
      var e := SumTree(t, tail);
      e.Legal() && e.Text() == t.Text() + text && e.Emit() == Ok(t.Emit().value + p)
  {
    hide ProductTree.Legal, ProductTree.Text, ProductTree.Emit, SumTail.Legal, SumTail.Text, SumTail.Emit;
  }

  /** The tokens of a formula with two operators. */
  function Parsed(a: string, o1: char, b: string, o2: char, c: string): seq<Token> {
    if Tight(o2) && !Tight(o1) then [a, b, c, Word(o2), Word(o1)] else [a, b, Word(o1), c, Word(o2)]
  }

  lemma ShapeOf(a: string, o1: char, b: string, o2: char, c: string)
    requires DigitText(a) && DigitText(b) && DigitText(c) && Operator(o1) && Operator(o2)
    ensures
      var e := Shape(a, o1, b, o2, c);
      e.Legal() && e.Text() == a + [o1] + b + [o2] + c && e.Emit() == Ok(Parsed(a, o1, b, o2, c))
  {
    hide OpName, OpChar, DigitText, Word, Named, FactorTree.Legal, FactorTree.Text, FactorTree.Emit, ProductTail.Legal,
      ProductTail.Text, ProductTail.Emit, ProductTree.Legal, ProductTree.Text, ProductTree.Emit, SumTail.Legal,
      SumTail.Text, SumTail.Emit, SumTree.Legal, SumTree.Text, SumTree.Emit;
    NothingMore();
    var x, y := [Word(o1)], [Word(o2)];
    ProductOf(a, NoFactor, "", []);
    ProductOf(c, NoFactor, "", []);
    assert a + "" == a && c + "" == c && [a] + [] == [a] && [c] + [] == [c];
    if Tight(o1) && Tight(o2) {
      FactorThen(o2, c, NoFactor, "", []);
      var last := MoreFactors("", Named(o2), Number("", c), NoFactor);
      FactorThen(o1, b, last, [o2] + c + "", [c, Word(o2)] + []);
      var tail := MoreFactors("", Named(o1), Number("", b), last);
      ProductOf(a, tail, [o1] + b + ([o2] + c + ""), [b, Word(o1)] + ([c, Word(o2)] + []));
      SumOf(ProductTree(Number("", a), tail), NoProduct, "", []);
      assert a + ([o1] + b + ([o2] + c + "")) + "" == a + [o1] + b + [o2] + c;
      assert [a] + ([b, Word(o1)] + ([c, Word(o2)] + [])) + [] == [a, b, Word(o1), c, Word(o2)];
    } else if Tight(o1) {
      FactorThen(o1, b, NoFactor, "", []);
      ProductOf(a, MoreFactors("", Named(o1), Number("", b), NoFactor), [o1] + b + "", [b, Word(o1)] + []);
      ProductThen(o2, One(c), NoProduct, "", []);
      SumOf(Two(a, o1, b), MoreProducts("", Named(o2), One(c), NoProduct), [o2] + c + "", [c] + y + []);
      assert a + ([o1] + b + "") + ([o2] + c + "") == a + [o1] + b + [o2] + c;
      assert [a] + ([b, Word(o1)] + []) + ([c] + y + []) == [a, b, Word(o1), c, Word(o2)];
    } else if Tight(o2) {
      FactorThen(o2, c, NoFactor, "", []);
      ProductOf(b, MoreFactors("", Named(o2), Number("", c), NoFactor), [o2] + c + "", [c, Word(o2)] + []);
      ProductThen(o1, Two(b, o2, c), NoProduct, "", []);
      var p := [b] + ([c, Word(o2)] + []) + x + [];
      SumOf(One(a), MoreProducts("", Named(o1), Two(b, o2, c), NoProduct), [o1] + (b + ([o2] + c + "")) + "", p);
      assert a + ([o1] + (b + ([o2] + c + "")) + "") == a + [o1] + b + [o2] + c;
      assert [a] + p == [a, b, c, Word(o2), Word(o1)];
    } else {
      ProductOf(b, NoFactor, "", []);
      assert b + "" == b && [b] + [] == [b];
      ProductThen(o2, One(c), NoProduct, "", []);
      var last := MoreProducts("", Named(o2), One(c), NoProduct);
      ProductThen(o1, One(b), last, [o2] + c + "", [c] + y + []);
      var tail := MoreProducts("", Named(o1), One(b), last);
      SumOf(One(a), tail, [o1] + b + ([o2] + c + ""), [b] + x + ([c] + y + []));
      assert a + ([o1] + b + ([o2] + c + "")) == a + [o1] + b + [o2] + c;
      assert [a] + ([b] + x + ([c] + y + [])) == [a, b, Word(o1), c, Word(o2)];
    }
  }

  /** Two operators: a tighter second one is applied first, any other last. */
  lemma TwoOperators(a: string, o1: char, b: string, o2: char, c: string)
    requires DigitText(a) && DigitText(b) && DigitText(c) && Operator(o1) && Operator(o2)
    ensures Accepts(a + [o1] + b + [o2] + c, Parsed(a, o1, b, o2, c))
  {
    hide Accepts, Shape, Parsed, DigitText;
    ShapeOf(a, o1, b, o2, c);
    var e := Shape(a, o1, b, o2, c);
    var s := a + [o1] + b + [o2] + c;
    assert s == e.Text() + "";
    assert Spells(e, "", s);
    GrammarExact(s, Parsed(a, o1, b, o2, c));
  }

  lemma BracketTree(inner: SumTree, p: seq<Token>)
    requires inner.Legal() && inner.Emit() == Ok(p)
    ensures
      var f := Group("", inner, "");
      f.Legal() && f.Text() == "(" + inner.Text() + ")" && f.Emit() == Ok(p)
  {
    hide SumTree.Legal, SumTree.Text, SumTree.Emit;
    assert "" + "(" + inner.Text() + "" + ")" == "(" + inner.Text() + ")";
  }

  /** A formula in brackets is applied as a whole, whatever the operator before it. */
  lemma Bracketed(a: string, o: char, inner: SumTree, p: seq<Token>)
    requires DigitText(a) && Operator(o) && inner.Legal() && inner.Emit() == Ok(p)
    ensures Accepts(a + [o] + "(" + inner.Text() + ")", [a] + p + [Word(o)])
  {
    hide Accepts, OpName, OpChar, DigitText, Word, Named, FactorTree.Legal, FactorTree.Text, FactorTree.Emit,
      ProductTail.Legal, ProductTail.Text, ProductTail.Emit, ProductTree.Legal, ProductTree.Text, ProductTree.Emit,
      SumTail.Legal, SumTail.Text, SumTail.Emit, SumTree.Legal, SumTree.Text, SumTree.Emit;
    NothingMore();
    BracketTree(inner, p);
    var f := Group("", inner, "");
    var text := "(" + inner.Text() + ")";
    var s, q := a + [o] + "(" + inner.Text() + ")", [a] + p + [Word(o)];
    var e: SumTree;
    if Tight(o) {
      AnyFactorThen(o, f, NoFactor, "", []);
      var tail := MoreFactors("", Named(o), f, NoFactor);
      ProductOf(a, tail, [o] + text + "", p + [Word(o)] + []);
      e := SumTree(ProductTree(Number("", a), tail), NoProduct);
      SumOf(e.first, NoProduct, "", []);
      assert a + ([o] + text + "") + "" == s && [a] + (p + [Word(o)] + []) + [] == q;
    } else {
      ProductOf(a, NoFactor, "", []);
      BareFactor(f);
      var t := ProductTree(f, NoFactor);
      ProductThen(o, t, NoProduct, "", []);
      e := SumTree(One(a), MoreProducts("", Named(o), t, NoProduct));
      SumOf(One(a), e.tail, [o] + text + "", p + [Word(o)] + []);
      assert a + "" + ([o] + text + "") == s && [a] + [] + (p + [Word(o)] + []) == q;
    }
    assert s == e.Text() + "" && Spells(e, "", s);
    GrammarExact(s, q);
  }

  lemma BareFactor(f: FactorTree)
    requires f.Legal() && f.Emit().Ok?
    ensures
      var t := ProductTree(f, NoFactor);
      t.Legal() && t.Text() == f.Text() && t.Emit() == f.Emit()
  {
    hide FactorTree.Legal, FactorTree.Text, FactorTree.Emit;
    NothingMore();
    assert f.Text() + "" == f.Text() && f.Emit().value + [] == f.Emit().value;
  }

  lemma NegatedToken(a: string)
    requires DigitText(a) && Positional(a) <= 2147483647
    ensures DoNeg([a]) == Ok([IntToString(-Positional(a))])
  {
    hide LexicalInt, IntToString, Positional;
    AllDigitsExactly(a);
    DigitsArePositional(a);
    PlainNumeral(a);
    LexicalIntExactly(a, Positional(a));
    assert Literal(a) == Ok(Positional(a));
    assert [a][..0] + [IntToString(-Positional(a))] == [IntToString(-Positional(a))];
  }

  lemma SignTree(a: string, minus: bool)
    requires DigitText(a) && Positional(a) <= 2147483647
    ensures
      var f := Sign("", minus, Number("", a));
      && f.Legal() && f.Text() == (if minus then "-" else "+") + a
      && f.Emit() == Ok([if minus then IntToString(-Positional(a)) else a])
  {
    hide DigitText, IntToString, Positional, DoNeg;
    NumberTree(a);
    NegatedToken(a);
    assert "" + (if minus then "-" else "+") + a == (if minus then "-" else "+") + a;
  }

  /** A sign before digits: a minus negates their number, a plus leaves them as they are. */
  lemma SignedNumber(a: string, minus: bool)
    requires DigitText(a) && Positional(a) <= 2147483647
    ensures Accepts((if minus then "-" else "+") + a, [if minus then IntToString(-Positional(a)) else a])
  {
    hide Accepts, DigitText, IntToString, Positional, FactorTree.Legal, FactorTree.Text, FactorTree.Emit, SumTree.Legal,
      SumTree.Text, SumTree.Emit;
    var f := Sign("", minus, Number("", a));
    SignTree(a, minus);
    SumOfFactor(f);
    var e := SumTree(ProductTree(f, NoFactor), NoProduct);
    var s := f.Text();
    assert s == e.Text() + "" && Spells(e, "", s);
    GrammarExact(s, f.Emit().value);
  }

  lemma PlainNumeral(a: string)
    requires DigitText(a)
    ensures IsNumeral(a) && NumeralValue(a) == Positional(a)
  {
    assert a[0] in a && a[0] in DIGITS;
    DigitTable(a[0]);
  }

  lemma SumOfFactor(f: FactorTree)
    requires f.Legal() && f.Emit().Ok?
    ensures
      var e := SumTree(ProductTree(f, NoFactor), NoProduct);
      e.Legal() && e.Text() == f.Text() && e.Emit() == f.Emit()
  {
    hide FactorTree.Legal, FactorTree.Text, FactorTree.Emit, ProductTree.Legal, ProductTree.Text, ProductTree.Emit;
    NothingMore();
    BareFactor(f);
    var t := ProductTree(f, NoFactor);
    SumOf(t, NoProduct, "", []);
    assert t.Text() + "" == t.Text() && t.Emit().value + [] == t.Emit().value;
  }

  // ----- A part that fails -----

  lemma OpenBracketMisses(b: string, stack: seq<Token>)
    requires DigitText(b)
    ensures Term("(" + b, stack) == Miss(stack + [b])
  {
    hide Factor, Expression, Char, Digits, SumTree.Legal, SumTree.Text, SumTree.Emit, Starts, NoDigit;
    var t := "(" + b;
    assert t == "" + ['('] + b;
    CharAfterBlanks('(', "", b);
    DigitsMiss('(', t, stack);
    FactorByChar(t, stack);
    NumberTree(b);
    SumOfFactor(Number("", b));
    var e := SumTree(One(b), NoProduct);
    NothingFollows("", "+-*/");
    ExpressionComplete(e, "", stack);
    assert b + "" == b;
    NoClosing();
  }

  lemma NoClosing()
    ensures Char(')', "") == None
  {
  }

  lemma NumberAlone(a: string, rest: string)
    requires DigitText(a) && Char('+', rest).Some? && NoDigit(rest)
    ensures Term(a + rest, []) == Hit(rest, [a])
  {
    hide Factor, Char, Digits, Starts, TermStep;
    AllDigitsExactly(a);
    DigitsComplete("", a, rest, []);
    assert "" + a + rest == a + rest && [] + [a] == [a];
    OneChar('+', '*', rest);
    OneChar('+', '/', rest);
    TermStepByChar(rest, [a]);
  }

  /** A part that fails does not take its tokens back: of a formula that breaks off after an open bracket the
      number behind the bracket stays on the stack, though the text from the operator on is not consumed. */
  lemma TokensStay(a: string, b: string)
    requires DigitText(a) && DigitText(b)
    ensures Expression(a + "+(" + b, []) == Hit("+(" + b, [a, b])
  {
    hide Term, Char, Starts, DigitText, ExpressionStep;
    var t := "(" + b;
    var rest := "+" + t;
    assert a + "+(" + b == a + rest && "+(" + b == rest && rest == "" + ['+'] + t;
    CharAfterBlanks('+', "", t);
    NumberAlone(a, rest);
    ExpressionStepByChar(rest, [a]);
    OpenBracketMisses(b, [a]);
    assert [a] + [b] == [a, b];
  }
}
