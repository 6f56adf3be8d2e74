/** Distributed evaluation: chunks computed apart and stitched together mean the whole expression. */
module Distribution {
  import opened Results
  import opened Decimal
  import opened Postfix
  import opened StackMachines
  import opened HeapTree
  import opened Chunking
  import opened Supervisor

  /** The text that ends up in a piece's slot: its only token, or the number the server answers for
      its postfix list. */
  function SlotText(p: Tree): Result<Token, Fault> {
    if HeapHeight(p.Vector()) == 0 then
      Ok(Get(p.Vector(), 1))
    else
      var n :- ServerCompute(Flatten(p.Vector(), 1));
      Ok(IntToString(n))
  }

  function SlotTexts(ps: seq<Tree>): Result<seq<Token>, Fault> {
    if ps == [] then
      Ok([])
    else
      var x :- SlotText(ps[0]);
      var rest :- SlotTexts(ps[1..]);
      Ok([x] + rest)
  }

  /** Cut, let the servers compute, put the answers in order, compute the rest. */
  function DistributedResult(e: Expr, maxH: nat): Result<string, Fault> {
    var p :- SlotTexts(Chunks(e, maxH));
    ClientCompute(p)
  }

  /** Every task is answered: each chunk that is not a literal has a value. */
  predicate TasksSucceed(e: Expr, maxH: nat) {
    if e.Height() <= maxH then e.Lit? || Eval(e).Ok? else TasksSucceed(e.left, maxH) && TasksSucceed(e.right, maxH)
  }

  /** The expression with each chunk replaced by the number it has been computed to. */
  function Collapse(e: Expr, maxH: nat): Expr
    requires TasksSucceed(e, maxH)
  {
    if e.Height() <= maxH then
      (if e.Lit? then e else Lit(IntToString(Eval(e).value)))
    else
      Bin(e.op, Collapse(e.left, maxH), Collapse(e.right, maxH))
  }

  lemma {:induction false} SlotTextsConcat(ps: seq<Tree>, qs: seq<Tree>)
    ensures SlotTexts(ps + qs) == (var a :- SlotTexts(ps); var b :- SlotTexts(qs); Ok(a + b))
  {
    hide SlotText;
    if ps == [] {
      assert ps + qs == qs;
      assert SlotTexts(qs).Ok? ==> [] + SlotTexts(qs).value == SlotTexts(qs).value;
    } else {
      SlotTextsConcat(ps[1..], qs);
      assert (ps + qs)[1..] == ps[1..] + qs;
      if SlotText(ps[0]).Ok? && SlotTexts(ps[1..]).Ok? && SlotTexts(qs).Ok? {
        var x, a, b := SlotText(ps[0]).value, SlotTexts(ps[1..]).value, SlotTexts(qs).value;
        assert [x] + (a + b) == ([x] + a) + b;
      }
    }
  }

  lemma SlotTextsOne(p: Tree)
    ensures SlotTexts([p]) == (var x :- SlotText(p); Ok([x]))
  {
    hide SlotText;
    assert SlotTexts([p][1..]) == Ok([]);
    assert forall x: Token :: [x] + [] == [x];
  }

  lemma SlotTextOfExpr(e: Expr)
    requires e.Proper()
    ensures SlotText(TreeOf(e)) == if e.Lit? then Ok(e.token) else (var n :- Eval(e); Ok(IntToString(n)))
  {
    hide IsOp, OpName, IsNumber, Flatten, Tree.Vector, Get;
    HeightOfLayout(e);
    RootOfVector(TreeOf(e));
    FlattenLayout(e);
    MachinesEvaluate(e);
  }

  lemma SlotTextOfOperator(op: Op)
    ensures SlotText(Leaf(OpName(op))) == Ok(OpName(op))
  {
    hide IsOp, OpName;
    VectorOfLeaf(OpName(op));
  }

  lemma ChunksUnfold(e: Expr, maxH: nat)
    requires e.Proper()
    ensures Chunks(e, maxH) ==
            if e.Height() <= maxH then [TreeOf(e)]
            else Chunks(e.left, maxH) + Chunks(e.right, maxH) + [Leaf(OpName(e.op))]
  {
    hide OpName;
    TreeOfExpr(e);
  }

  /** The slots hold the postfix list of the collapsed expression. */
  lemma {:induction false} SlotsHoldCollapsed(e: Expr, maxH: nat)
    requires e.Proper()
    ensures TasksSucceed(e, maxH) <==> SlotTexts(Chunks(e, maxH)).Ok?
    ensures TasksSucceed(e, maxH) ==> SlotTexts(Chunks(e, maxH)).value == Collapse(e, maxH).Post()
  {
    hide IsOp, OpName, IsNumber, SlotText, SlotTexts, Eval, IntToString, Chunks;
    ChunksUnfold(e, maxH);
    if e.Height() <= maxH {
      SlotTextOfExpr(e);
      SlotTextsOne(TreeOf(e));
    } else {
      var ls, rs := Chunks(e.left, maxH), Chunks(e.right, maxH);
      SlotsHoldCollapsed(e.left, maxH);
      SlotsHoldCollapsed(e.right, maxH);
      SlotTextOfOperator(e.op);
      SlotTextsOne(Leaf(OpName(e.op)));
      SlotTextsConcat(ls, rs);
      SlotTextsConcat(ls + rs, [Leaf(OpName(e.op))]);
    }
  }

  /** Collapsing keeps the value, and the fault if there is one. */
  lemma {:induction false} CollapseKeepsValue(e: Expr, maxH: nat)
    requires e.Proper() && TasksSucceed(e, maxH)
    ensures Collapse(e, maxH).Proper() && Eval(Collapse(e, maxH)) == Eval(e)
  {
    if e.Height() <= maxH {
      if e.Bin? {
        IntRoundTrip(Eval(e).value);
        WrittenIntIsNumber(Eval(e).value);
      }
    } else {
      hide Apply;
      CollapseKeepsValue(e.left, maxH);
      CollapseKeepsValue(e.right, maxH);
    }
  }

  lemma {:induction false} ValueMeansTasksSucceed(e: Expr, maxH: nat)
    requires Eval(e).Ok?
    ensures TasksSucceed(e, maxH)
  {
    if e.Height() > maxH {
      ValueMeansTasksSucceed(e.left, maxH);
      ValueMeansTasksSucceed(e.right, maxH);
    }
  }

  /** For every expression and every maximal height: if all servers answer, the stitched list computes
      to what the expression evaluates to, value or fault; and they all answer if it has a value. */
  lemma DistributionPreservesMeaning(e: Expr, maxH: nat)
    requires e.Proper()
    ensures SlotTexts(Chunks(e, maxH)).Ok? ==> DistributedResult(e, maxH) == (var n :- Eval(e); Ok(IntToString(n)))
    ensures Eval(e).Ok? ==> SlotTexts(Chunks(e, maxH)).Ok?
    ensures DistributedResult(e, maxH).Ok? <==> Eval(e).Ok?
  {
    hide IsOp, OpName, IsNumber, SlotTexts, ClientCompute, Chunks;
    SlotsHoldCollapsed(e, maxH);
    if TasksSucceed(e, maxH) {
      CollapseKeepsValue(e, maxH);
      MachinesEvaluate(Collapse(e, maxH));
    }
    if Eval(e).Ok? {
      ValueMeansTasksSucceed(e, maxH);
    }
  }

  // ----- Together with the gather -----

  /** Every accepted notification carries the server's answer to the task of that slot. */
  ghost predicate Honest(ps: seq<Tree>, slots: Slots, ns: seq<Notification>) {
    forall k :: 0 <= k < |ns| && Accepts(slots, ns[k]) ==>
      && ns[k].idx < |ps|
      && SlotText(ps[ns[k].idx]) == Ok(ns[k].result)
  }

  /** Dispatch always starts a task, so a notification can trigger the final computation. */
  lemma DispatchStartsATask(t: Tree, maxH: nat, spawn: nat -> ThreadId) returns (i: nat)
    requires t.Height() > maxH
    ensures
      var ps := Cut(t, Clamped(maxH));
      && i < |ps| && HeapHeight(ps[i].Vector()) == Clamped(maxH) == (if maxH >= 1 then maxH else 1)
      && Dispatched(ps, spawn)[i].threadId == Some(spawn(i))
      && Task(spawn(i), Flatten(ps[i].Vector(), 1), i) in TasksOf(ps, spawn)
  {
    hide Cut, Flatten, HeapHeight, Tree.Vector;
    i := SomeChunkIsFull(t, Clamped(maxH));
    TaskListed(Cut(t, Clamped(maxH)), spawn, i);
  }

  lemma {:induction false} TaskListed(ps: seq<Tree>, spawn: nat -> ThreadId, i: nat)
    requires i < |ps| && HeapHeight(ps[i].Vector()) != 0
    ensures Task(spawn(i), Flatten(ps[i].Vector(), 1), i) in TasksOf(ps, spawn)
  {
    hide Flatten, HeapHeight, Tree.Vector;
    var last := |ps| - 1;
    if i < last {
      TaskListed(ps[..last], spawn, i);
      assert ps[..last][i] == ps[i];
    }
  }

  lemma {:induction false} SlotTextsAt(ps: seq<Tree>, texts: seq<Token>)
    requires |texts| == |ps|
    requires forall i :: 0 <= i < |ps| ==> SlotText(ps[i]) == Ok(texts[i])
    ensures SlotTexts(ps) == Ok(texts)
  {
    hide SlotText;
    if ps != [] {
      SlotTextsAt(ps[1..], texts[1..]);
      assert texts == [texts[0]] + texts[1..];
    }
  }

  /** When dispatch has finished exactly the slots without a thread hold a result. */
  lemma DispatchedPending(ps: seq<Tree>, spawn: nat -> ThreadId)
    ensures Pending(Dispatched(ps, spawn))
  {
    hide HeapHeight, Get, Tree.Vector;
    var slots := Dispatched(ps, spawn);
    forall i | 0 <= i < |slots|
      ensures slots[i].result.None? <==> slots[i].threadId.Some?
    {
      assert slots[i] == SlotOf(ps[i], spawn(i));
    }
  }

  lemma ChunksAreCut(e: Expr, maxH: nat)
    ensures Chunks(e, maxH) == Cut(TreeOf(e), maxH)
  {
  }

  /** The whole run of the supervisor: however the notifications interleave, once every task has
      notified with its server's answer there is exactly one report, and it is the value (or the
      fault) of the expression. */
  lemma GatheredResult(e: Expr, maxH: nat, spawn: nat -> ThreadId, ns: seq<Notification>)
    requires e.Proper() && e.Height() > maxH
    requires OncePerTask(Dispatched(Chunks(e, Clamped(maxH)), spawn), ns)
    requires Honest(Chunks(e, Clamped(maxH)), Dispatched(Chunks(e, Clamped(maxH)), spawn), ns)
    ensures
      var slots := Dispatched(Chunks(e, Clamped(maxH)), spawn);
      After(Gather(slots, []), ns).reports == [var n :- Eval(e); Ok(IntToString(n))]
  {
    hide Chunks, SlotText, SlotTexts, HeapHeight, ClientCompute, Eval, IntToString, After, NotifyStep, Tree.Vector, Get,
      Flatten, TasksOf, Honest, IsNumber;
    var ps := Chunks(e, Clamped(maxH));
    var slots := Dispatched(ps, spawn);
    var g := Gather(slots, []);
    TreeOfExpr(e);
    var task := DispatchStartsATask(TreeOf(e), maxH, spawn);
    ChunksAreCut(e, Clamped(maxH));
    DispatchedPending(ps, spawn);
    var m := FinalComputationOnce(g, ns);
    var end := After(g, ns);
    assert ns[..|ns|] == ns;
    var texts := Texts(end.slots);
    forall i | 0 <= i < |ps|
      ensures SlotText(ps[i]) == Ok(texts[i])
    {
      SlotFilled(ps, spawn, ns, i);
    }
    SlotTextsAt(ps, texts);
    DistributionPreservesMeaning(e, Clamped(maxH));
  }

  lemma SlotFilled(ps: seq<Tree>, spawn: nat -> ThreadId, ns: seq<Notification>, i: nat)
    requires i < |ps|
    requires OncePerTask(Dispatched(ps, spawn), ns) && Honest(ps, Dispatched(ps, spawn), ns)
    ensures After(Gather(Dispatched(ps, spawn), []), ns).slots[i].result.Some?
    ensures SlotText(ps[i]) == Ok(After(Gather(Dispatched(ps, spawn), []), ns).slots[i].result.value)
  {
    hide ClientCompute, After, NotifyStep, HeapHeight, Tree.Vector, Get, Flatten;
    var slots := Dispatched(ps, spawn);
    var g := Gather(slots, []);
    SlotsAfter(g, ns);
    assert slots[i] == SlotOf(ps[i], spawn(i));
    if slots[i].threadId.Some? {
      assert Answered(slots, ns, i);
      var k :| 0 <= k < |ns| && Accepts(slots, ns[k]) && ns[k].idx == i;
      AnswerKept(g, ns, k);
    } else {
      assert !Answered(slots, ns, i);
    }
  }

  // ----- Any honest run -----

  /** Whatever has been answered, a slot that is filled holds the text of its chunk. */
  lemma {:induction false} FilledHonestly(ps: seq<Tree>, spawn: nat -> ThreadId, ns: seq<Notification>)
    requires InRange(Dispatched(ps, spawn), ns) && Honest(ps, Dispatched(ps, spawn), ns)
    ensures
      var slots := After(Gather(Dispatched(ps, spawn), []), ns).slots;
      forall i :: 0 <= i < |ps| && slots[i].result.Some? ==> SlotText(ps[i]) == Ok(slots[i].result.value)
    decreases |ns|
  {
    hide ClientCompute, HeapHeight, Tree.Vector, Get, Flatten, Complete, Texts;
    var g := Gather(Dispatched(ps, spawn), []);
    assert forall i :: 0 <= i < |ps| ==> g.slots[i] == SlotOf(ps[i], spawn(i));
    if ns != [] {
      var front, n := ns[..|ns| - 1], ns[|ns| - 1];
      FilledHonestly(ps, spawn, front);
      SlotsAfter(g, front);
    }
  }

  /** A complete stack computes to the value of the expression, and only a run in which every chunk has a value
      completes it. */
  lemma CompleteMeans(e: Expr, maxH: nat, slots: Slots)
    requires e.Proper() && Complete(slots) && |slots| == |Chunks(e, maxH)|
    requires forall i :: 0 <= i < |slots| ==> SlotText(Chunks(e, maxH)[i]) == Ok(slots[i].result.value)
    ensures TasksSucceed(e, maxH) && ClientCompute(Texts(slots)) == (var n :- Eval(e); Ok(IntToString(n)))
  {
    hide Chunks, SlotText, SlotTexts, ClientCompute, Eval, IntToString, IsNumber;
    SlotTextsAt(Chunks(e, maxH), Texts(slots));
    SlotsHoldCollapsed(e, maxH);
    DistributionPreservesMeaning(e, maxH);
  }

  /** In any run of honest notifications, also if some are missing or repeated, every report is the value (or
      the fault) of the expression; and if the server fails on some chunk nothing is ever reported. */
  lemma {:induction false} HonestReports(e: Expr, maxH: nat, spawn: nat -> ThreadId, ns: seq<Notification>)
    requires e.Proper()
    requires InRange(Dispatched(Chunks(e, maxH), spawn), ns)
    requires Honest(Chunks(e, maxH), Dispatched(Chunks(e, maxH), spawn), ns)
    ensures
      var reports := After(Gather(Dispatched(Chunks(e, maxH), spawn), []), ns).reports;
      && (forall k :: 0 <= k < |reports| ==> reports[k] == (var n :- Eval(e); Ok(IntToString(n))))
      && (!TasksSucceed(e, maxH) ==> reports == [])
    decreases |ns|
  {
    hide Chunks, SlotText, ClientCompute, Eval, IntToString, HeapHeight, Dispatched, Complete, Texts, TasksSucceed,
      NotifyStep, IsNumber;
    if ns != [] {
      var front, n := ns[..|ns| - 1], ns[|ns| - 1];
      var g := Gather(Dispatched(Chunks(e, maxH), spawn), []);
      HonestReports(e, maxH, spawn, front);
      FilledHonestly(Chunks(e, maxH), spawn, ns);
      var now := After(g, ns);
      assert now == NotifyStep(After(g, front), n);
      DispatchedLength(Chunks(e, maxH), spawn);
      ReportOfStep(After(g, front), n);
      if now.reports != After(g, front).reports {
        AllFilled(now.slots);
        CompleteMeans(e, maxH, now.slots);
      }
    }
  }

  lemma ReportOfStep(g: Gather, n: Notification)
    requires n.idx < |g.slots|
    ensures
      var g' := NotifyStep(g, n);
      || g'.reports == g.reports
      || (Complete(g'.slots) && g'.reports == g.reports + [ClientCompute(Texts(g'.slots))])
  {
    hide Complete, Texts, ClientCompute;
  }

  lemma DispatchedLength(ps: seq<Tree>, spawn: nat -> ThreadId)
    ensures |Dispatched(ps, spawn)| == |ps|
  {
  }

  lemma AllFilled(slots: Slots)
    requires Complete(slots)
    ensures forall i :: 0 <= i < |slots| ==> slots[i].result.Some?
  {
  }
}
