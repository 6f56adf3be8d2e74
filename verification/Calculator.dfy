/** The whole calculator: from the text the user types to the number that is reported. */
module Calculator {
  import opened Results
  import opened Decimal
  import opened Postfix
  import opened StackMachines
  import opened HeapTree
  import opened Chunking
  import opened Supervisor
  import opened Distribution
  import opened ParserProduct
  import Grammar = InfixGrammar
  import Infix = InfixToPostfix
  import Xml = XmlValues
  import Documents = XmlRoundTrip

  // ----- A task on the wire -----

  /** The parameter a task sends: its postfix list as an array of strings. */
  function Parameter(p: seq<Token>): Xml.Value {
    Xml.Array(seq(|p|, i requires 0 <= i < |p| => Xml.String(p[i])))
  }

  /** What the server's method reads from its parameter, if it has the right type. */
  function ReceivedTokens(v: Xml.Value): Option<seq<Token>> {
    if v.Array? && forall i :: 0 <= i < |v.items| ==> v.items[i].String? then
      Some(seq(|v.items|, i requires 0 <= i < |v.items| => v.items[i].s))
    else
      None
  }

  /** A task's round trip: the request document is read by the server, the server computes, the response
      document is read by the task, which notifies with the number as text. */
  function RemoteText(request: Xml.Node, respond: int -> Xml.Node): Option<string> {
    match Xml.ParseValue(request)
    case Err(_) => None
    case Ok(param) =>
      match ReceivedTokens(param)
      case None => None
      case Some(p) =>
        match ServerCompute(p)
        case Err(_) => None
        case Ok(n) =>
          match Xml.ParseValue(respond(n))
          case Ok(Int(i)) => Some(IntToString(i))
          case _ => None
  }

  lemma ParameterReceived(p: seq<Token>)
    ensures Documents.Stored(Parameter(p)) && Documents.NamesNotBlank(Parameter(p))
    ensures ReceivedTokens(Parameter(p)) == Some(p)
  {
    var items := Parameter(p).items;
    assert seq(|items|, i requires 0 <= i < |items| => items[i].s) == p;
  }

  /** However request and response are laid out, a task notifies with the value of its expression. */
  lemma TaskRoundTrip(e: Expr, request: Xml.Node, respond: int -> Xml.Node)
    requires e.Proper() && Documents.Spells(Parameter(e.Post()), request)
    requires forall n :: FitsInt(n) ==> Documents.Spells(Xml.Int(n), respond(n))
    ensures RemoteText(request, respond) == match Eval(e) case Ok(n) => Some(IntToString(n)) case Err(_) => None
  {
    hide IsOp, OpName, IsNumber, ServerCompute, IntToString, Documents.Spells, Xml.ParseValue;
    var v := Parameter(e.Post());
    Documents.DocumentParses(v, request);
    ParameterReceived(e.Post());
    MachinesEvaluate(e);
    if Eval(e).Ok? {
      Documents.DocumentParses(Xml.Int(Eval(e).value), respond(Eval(e).value));
    }
  }

  /** Documents that say what client and server mean: the postfix list, and whatever number is answered. */
  ghost predicate Documented(p: seq<Token>, request: Xml.Node, respond: int -> Xml.Node) {
    && Documents.Spells(Parameter(p), request)
    && forall n :: FitsInt(n) ==> Documents.Spells(Xml.Int(n), respond(n))
  }

  /** A chunk sent to a server is answered with the text its slot needs, or not at all. */
  lemma PieceRoundTrip(x: Expr, request: Xml.Node, respond: int -> Xml.Node, result: string)
    requires x.Proper() && x.Bin? && Documented(Flatten(Layout(x), 1), request, respond)
    ensures RemoteText(request, respond) == Some(result) <==> SlotText(TreeOf(x)) == Ok(result)
  {
    hide IsOp, OpName, IsNumber, Flatten, Layout, RemoteText, SlotText, Documents.Spells, IntToString;
    FlattenLayout(x);
    TaskRoundTrip(x, request, respond);
    SlotTextOfExpr(x);
  }

  // ----- From text to report -----

  /** The text of a result, or the fault. */
  function Shown(r: Result<int, Fault>): Result<string, Fault> {
    var n :- r;
    Ok(IntToString(n))
  }

  /** A text that the parser matches completely: its tokens rebuild a tree; a low tree is computed at once
      to the value of the formula; a high one is cut and dispatched, and in every interleaving in which
      each task notifies once with its server's answer there is exactly one report, that value.  The
      formula is any that the text spells. */
  lemma CalculatorCorrect(s: string, p: seq<Token>, formula: Grammar.SumTree, after: string) returns (e: Expr)
    requires Infix.Accepts(s, p) && Infix.Spells(formula, after, s)
    ensures e.Proper() && Rebuild(p) == Some(Layout(e)) && p == e.Post()
    ensures ClientCompute(p) == Shown(formula.Value())
    ensures forall maxH: nat, spawn, ns |
              && e.Height() > maxH
              && OncePerTask(Dispatched(Chunks(e, Clamped(maxH)), spawn), ns)
              && Honest(Chunks(e, Clamped(maxH)), Dispatched(Chunks(e, Clamped(maxH)), spawn), ns)
              :: After(Gather(Dispatched(Chunks(e, Clamped(maxH)), spawn), []), ns).reports == [Shown(formula.Value())]
  {
    hide Infix.Accepts, Infix.Spells, Chunks, Honest, Dispatched, After, ClientCompute, Rebuild, Layout;
    var g, after' := Infix.InfixToPostfixCorrect(s, p);
    e := Infix.SumExpr(formula);
    assert Eval(e) == formula.Value();
    RebuildPost(e);
    MachinesEvaluate(e);
    forall maxH: nat, spawn, ns |
      && e.Height() > maxH
      && OncePerTask(Dispatched(Chunks(e, Clamped(maxH)), spawn), ns)
      && Honest(Chunks(e, Clamped(maxH)), Dispatched(Chunks(e, Clamped(maxH)), spawn), ns)
      ensures After(Gather(Dispatched(Chunks(e, Clamped(maxH)), spawn), []), ns).reports == [Shown(formula.Value())]
    {
      GatheredResult(e, maxH, spawn, ns);
    }
  }

  // ----- The same over documents -----

  /** Every accepted notification carries the text a task got for the chunk of its slot, by documents of any
      layout. */
  ghost predicate AnsweredByDocuments(ps: seq<Tree>, slots: Slots, ns: seq<Notification>) {
    forall k :: 0 <= k < |ns| && Accepts(slots, ns[k]) ==>
      && ns[k].idx < |ps|
      && AnswerOf(ps[ns[k].idx], ns[k].result)
  }

  ghost predicate AnswerOf(p: Tree, result: string) {
    exists request, respond ::
      Documented(Flatten(p.Vector(), 1), request, respond) && RemoteText(request, respond) == Some(result)
  }

  lemma DocumentsAreHonest(e: Expr, maxH: nat, spawn: nat -> ThreadId, ns: seq<Notification>)
    requires e.Proper()
    requires AnsweredByDocuments(Chunks(e, maxH), Dispatched(Chunks(e, maxH), spawn), ns)
    ensures Honest(Chunks(e, maxH), Dispatched(Chunks(e, maxH), spawn), ns)
  {
    hide HeapHeight, Flatten, Tree.Vector, SlotText, RemoteText, Documented, Get, Cut;
    var ps := Chunks(e, maxH);
    var slots := Dispatched(ps, spawn);
    forall k | 0 <= k < |ns| && Accepts(slots, ns[k])
      ensures SlotText(ps[ns[k].idx]) == Ok(ns[k].result)
    {
      var i := ns[k].idx;
      assert slots[i] == SlotOf(ps[i], spawn(i));
      var request, respond :|
        Documented(Flatten(ps[i].Vector(), 1), request, respond) && RemoteText(request, respond) == Some(ns[k].result);
      HeightOfVector(ps[i]);
      var x := ChunkIsExpr(e, maxH, ps[i]);
      assert Layout(x) == ps[i].Vector();
      PieceRoundTrip(x, request, respond, ns[k].result);
    }
  }

  /** The calculator over the wire: the value of a low formula is computed at once; if each task of a high tree
      notifies once, in any order, with what it got by documents of any layout, there is exactly one report,
      the value of the formula. */
  lemma CalculatorCorrectOverTheWire(
      s: string, p: seq<Token>, formula: Grammar.SumTree, after: string, maxH: nat, spawn: nat -> ThreadId)
    returns (e: Expr)
    requires Infix.Accepts(s, p) && Infix.Spells(formula, after, s)
    ensures e.Proper() && Rebuild(p) == Some(Layout(e)) && p == e.Post()
    ensures ClientCompute(p) == Shown(formula.Value())
    ensures
      var ps := Chunks(e, Clamped(maxH));
      var slots := Dispatched(ps, spawn);
      forall ns | e.Height() > maxH && OncePerTask(slots, ns) && AnsweredByDocuments(ps, slots, ns) ::
        After(Gather(slots, []), ns).reports == [Shown(formula.Value())]
  {
    hide Infix.Accepts, Infix.Spells, Chunks, Honest, AnsweredByDocuments, Dispatched, After, Rebuild, Layout,
      ClientCompute;
    e := CalculatorCorrect(s, p, formula, after);
    var ps := Chunks(e, Clamped(maxH));
    var slots := Dispatched(ps, spawn);
    forall ns | e.Height() > maxH && OncePerTask(slots, ns) && AnsweredByDocuments(ps, slots, ns)
      ensures After(Gather(slots, []), ns).reports == [Shown(formula.Value())]
    {
      DocumentsAreHonest(e, Clamped(maxH), spawn, ns);
    }
  }

  // ----- The whole program -----

  /** The notifications that find a slot: none if the tree of `e` is computed at once. */
  ghost predicate Deliverable(e: Expr, maxH: nat, spawn: nat -> ThreadId, ns: seq<Notification>) {
    if e.Height() <= maxH then ns == [] else InRange(Dispatched(Chunks(e, Clamped(maxH)), spawn), ns)
  }

  /** What a supervisor has reported after these notifications. */
  function ReportsAfter(e: Expr, maxH: nat, spawn: nat -> ThreadId, ns: seq<Notification>)
    : seq<Result<string, Fault>>
    requires Deliverable(e, maxH, spawn, ns)
  {
    if e.Height() <= maxH then
      [ClientCompute(e.Post())]
    else
      After(Gather(Dispatched(Chunks(e, Clamped(maxH)), spawn), []), ns).reports
  }

  /** Make a supervisor for the tokens of an expression, run it, and take the notifications as they come. */
  method Supervise(
      tokens: seq<Token>, ghost e: Expr, maxH: nat, spawn: nat -> ThreadId, ns: seq<Notification>)
    returns (reports: seq<Result<string, Fault>>)
    requires e.Proper() && tokens == e.Post() && Deliverable(e, maxH, spawn, ns)
    ensures reports == ReportsAfter(e, maxH, spawn, ns)
  {
    hide Chunks, Dispatched, ClientCompute, Rebuild, Layout, Cut, TasksOf, After, NotifyStep, Expr.Post, Tree.Vector,
      Tree.Listed, Tree.Rooted, Tree.Height, Expr.Height, TreeOf, Expr.Proper, LiteralSlots;
    RebuildPost(e);
    var supervisor := new ClientControllerSupervisor(tokens, maxH);
    TreeToRun(e, maxH);
    var tasks := supervisor.Run(TreeOf(e), spawn);
    ghost var g := supervisor.State();
    AfterNone(g);
    var i := 0;
    while i < |ns|
      invariant 0 <= i <= |ns| && InRange(g.slots, ns)
      invariant InRange(g.slots, ns[..i]) && supervisor.State() == After(g, ns[..i])
    {
      AfterSnoc(g, ns, i);
      supervisor.Notify(ns[i]);
      i := i + 1;
    }
    assert ns[..i] == ns;
    return supervisor.reports;
  }

  /** Every task of a high tree notifies once, in any order, with what it got by documents. */
  ghost predicate Notified(e: Expr, maxH: nat, spawn: nat -> ThreadId, ns: seq<Notification>) {
    && Deliverable(e, maxH, spawn, ns)
    && (e.Height() > maxH ==>
          var ps := Chunks(e, Clamped(maxH));
          OncePerTask(Dispatched(ps, spawn), ns) && AnsweredByDocuments(ps, Dispatched(ps, spawn), ns))
  }

  /** Parse a formula on the global stack and have its tokens computed.  `formula` is any formula the text
      spells.  If the parser throws nothing is computed. */
  method ComputeText(
      s: string, maxH: nat, spawn: nat -> ThreadId, ns: seq<Notification>,
      ghost formula: Grammar.SumTree, ghost after: string)
    returns (reports: seq<Result<string, Fault>>)
    requires Infix.Spells(formula, after, s)
    requires Infix.SignsFit(formula) ==> Notified(Infix.SumExpr(formula), maxH, spawn, ns)
    ensures reports == if Infix.SignsFit(formula) then [Shown(formula.Value())] else []
  {
    hide Infix.Spells, Infix.SignsFit, Infix.Accepts, Rebuild, Layout, ReportsAfter, Shown, Agrees, OncePerTask,
      AnsweredByDocuments, Deliverable;
    var stack := new ExpressionStack();
    var scan := stack.Expression(s);
    ghost var e := Infix.SumExpr(formula);
    ParsedTokens(s, formula, after, scan, stack.tokens);
    if scan.Thrown? {
      return [];
    }
    Reported(s, stack.tokens, formula, after, maxH, spawn, ns);
    reports := Supervise(stack.tokens, e, maxH, spawn, ns);
  }
  /** What the parser leaves of a text that spells a formula. */
  lemma ParsedTokens(s: string, formula: Grammar.SumTree, after: string, scan: Scan, tokens: seq<Token>)
    requires Infix.Spells(formula, after, s) && Agrees(Grammar.Expression(s, []), scan, tokens)
    ensures scan.Thrown? <==> !Infix.SignsFit(formula)
    ensures Infix.SignsFit(formula) ==>
              && Infix.Accepts(s, tokens) && Infix.SumExpr(formula).Proper()
              && tokens == Infix.SumExpr(formula).Post() && Rebuild(tokens) == Some(Layout(Infix.SumExpr(formula)))
  {
    hide Grammar.Expression, Infix.Spells, Infix.SignsFit, Rebuild, Layout;
    Infix.ParsedIffSignsFit(s, formula, after);
    if Infix.SignsFit(formula) {
      var p :| Infix.Accepts(s, p);
      var e := CalculatorCorrect(s, p, formula, after);
      var g, after' := Infix.InfixToPostfixCorrect(s, p);
      RebuildPost(Infix.SumExpr(formula));
    }
  }

  /** The tree of an expression, as `Run` takes it. */
  lemma TreeToRun(e: Expr, maxH: nat)
    requires e.Proper()
    ensures Layout(e) == TreeOf(e).Vector() && TreeOf(e).Rooted() && TreeOf(e).Height() == e.Height()
    ensures TreeOf(e).Listed() == e.Post() && Chunks(e, Clamped(maxH)) == Cut(TreeOf(e), Clamped(maxH))
  {
    hide Tree.Rooted, Tree.Listed, Tree.Vector;
    ExprIsRooted(e);
    TreeOfExpr(e);
  }

  lemma AfterNone(g: Gather)
    ensures After(g, []) == g
  {
  }

  lemma AfterSnoc(g: Gather, ns: seq<Notification>, i: nat)
    requires InRange(g.slots, ns) && i < |ns|
    ensures InRange(g.slots, ns[..i]) && InRange(g.slots, ns[..i + 1])
    ensures After(g, ns[..i + 1]) == NotifyStep(After(g, ns[..i]), ns[i])
  {
    hide NotifyStep;
    assert ns[..i + 1][..i] == ns[..i];
  }

  /** What has been reported at the end of such a run. */
  lemma Reported(
      s: string, p: seq<Token>, formula: Grammar.SumTree, after: string, maxH: nat, spawn: nat -> ThreadId,
      ns: seq<Notification>)
    requires Infix.Accepts(s, p) && Infix.Spells(formula, after, s)
    requires Notified(Infix.SumExpr(formula), maxH, spawn, ns)
    ensures ReportsAfter(Infix.SumExpr(formula), maxH, spawn, ns) == [Shown(formula.Value())]
  {
    hide Infix.Accepts, Infix.Spells, Chunks, Honest, AnsweredByDocuments, Dispatched, After, Rebuild, Layout,
      ClientCompute, Shown;
    var e := CalculatorCorrectOverTheWire(s, p, formula, after, maxH, spawn);
    var g, after' := Infix.InfixToPostfixCorrect(s, p);
    SameExpr(e, Infix.SumExpr(formula));
  }

  lemma SameExpr(d: Expr, e: Expr)
    requires d.Proper() && e.Proper() && d.Post() == e.Post()
    ensures d == e
  {
    PostUnique(d, e, [], []);
  }
}
