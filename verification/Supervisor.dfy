/** `ClientControllerSupervisor`: one result slot for each chunk of the tree, filled by tasks that
    answer in any order; the last answer triggers the final computation. */
module Supervisor {
  import opened Results
  import opened Postfix
  import opened StackMachines
  import opened HeapTree
  import opened Chunking

  type ThreadId = nat

  /** A slot: the thread that owes its result, if any, and the result, if it is there. */
  datatype ThreadResult = ThreadResult(threadId: Option<ThreadId>, result: Option<string>)

  /** What a started thread carries: its own id, the postfix list to send, its slot. */
  datatype Task = Task(id: ThreadId, expr: seq<Token>, idx: nat)

  datatype Notification = Notification(result: string, id: ThreadId, idx: nat)

  type Slots = seq<ThreadResult>

  function LiteralSlot(x: Token): ThreadResult {
    ThreadResult(None, Some(x))
  }

  function LiteralSlots(p: seq<Token>): Slots {
    seq(|p|, i requires 0 <= i < |p| => LiteralSlot(p[i]))
  }

  /** A tree of height 0 is copied into its slot; any other becomes a task. */
  function SlotOf(p: Tree, id: ThreadId): ThreadResult {
    if HeapHeight(p.Vector()) == 0 then LiteralSlot(Get(p.Vector(), 1)) else ThreadResult(Some(id), None)
  }

  function Dispatched(ps: seq<Tree>, spawn: nat -> ThreadId): Slots {
    seq(|ps|, i requires 0 <= i < |ps| => SlotOf(ps[i], spawn(i)))
  }

  function TasksOf(ps: seq<Tree>, spawn: nat -> ThreadId): seq<Task> {
    if ps == [] then
      []
    else
      var i := |ps| - 1;
      TasksOf(ps[..i], spawn)
      + if HeapHeight(ps[i].Vector()) == 0 then [] else [Task(spawn(i), Flatten(ps[i].Vector(), 1), i)]
  }

  lemma DispatchNone(spawn: nat -> ThreadId)
    ensures Dispatched([], spawn) == [] && TasksOf([], spawn) == []
  {
  }

  lemma DispatchSnoc(ps: seq<Tree>, idx: nat, spawn: nat -> ThreadId)
    requires idx < |ps|
    ensures Dispatched(ps[..idx + 1], spawn) == Dispatched(ps[..idx], spawn) + [SlotOf(ps[idx], spawn(idx))]
    ensures TasksOf(ps[..idx + 1], spawn) ==
            TasksOf(ps[..idx], spawn)
            + if HeapHeight(ps[idx].Vector()) == 0 then [] else [Task(spawn(idx), Flatten(ps[idx].Vector(), 1), idx)]
  {
    hide HeapHeight, Flatten, Get, SlotOf, Tree.Vector;
    assert ps[..idx + 1][..idx] == ps[..idx];
  }

  /** `dispatchTree` never cuts below height 1. */
  function Clamped(maxH: nat): nat {
    if maxH < 1 then 1 else maxH
  }

  /** Each slot in turn: a single token is there at once, any other tree is owed by its thread. */
  lemma SlotsExactly(ps: seq<Tree>, spawn: nat -> ThreadId, i: nat)
    requires i < |ps| && ps[i].Node?
    ensures |Dispatched(ps, spawn)| == |ps|
    ensures Dispatched(ps, spawn)[i] ==
            if ps[i].Height() == 0 then ThreadResult(None, Some(ps[i].token)) else ThreadResult(Some(spawn(i)), None)
  {
    hide HeapHeight, Get, Tree.Vector;
    HeightOfVector(ps[i]);
    RootOfVector(ps[i]);
    assert Dispatched(ps, spawn)[i] == SlotOf(ps[i], spawn(i));
  }

  /** There is a task for each tree that is higher than a single token and for no other, in the order of the
      slots, with the tree's postfix list, its thread and its slot. */
  lemma {:induction false} TasksExactly(ps: seq<Tree>, spawn: nat -> ThreadId)
    requires forall p :: p in ps ==> p.Node? && NULL !in p.Tokens()
    ensures forall task :: task in TasksOf(ps, spawn) <==>
                           && task.idx < |ps| && ps[task.idx].Height() > 0
                           && task.id == spawn(task.idx) && task.expr == ps[task.idx].Listed()
    ensures forall j, k :: 0 <= j < k < |TasksOf(ps, spawn)| ==> TasksOf(ps, spawn)[j].idx < TasksOf(ps, spawn)[k].idx
  {
    hide HeapHeight, Flatten, Tree.Vector, Tree.Height, Tree.Tokens, Tree.Listed;
    if ps != [] {
      var n := |ps| - 1;
      var front, p := ps[..n], ps[n];
      TasksExactly(front, spawn);
      assert p in ps && forall q :: q in front ==> q in ps;
      HeightOfVector(p);
      VectorHolds(p);
      FlattenHolds(p.Vector(), 1, p);
      forall j | 0 <= j < |TasksOf(front, spawn)|
        ensures TasksOf(front, spawn)[j].idx < n
      {
        assert TasksOf(front, spawn)[j] in TasksOf(front, spawn);
      }
      assert forall i :: 0 <= i < n ==> front[i] == ps[i];
    }
  }

  // ----- Gathering -----

  predicate Complete(slots: Slots) {
    forall i :: 0 <= i < |slots| ==> slots[i].result.Some?
  }

  function Texts(slots: Slots): seq<Token>
    requires Complete(slots)
  {
    seq(|slots|, i requires 0 <= i < |slots| => slots[i].result.value)
  }

  /** The supervisor between two notifications: its slots, and the final results it has reported. */
  datatype Gather = Gather(slots: Slots, reports: seq<Result<string, Fault>>)

  /** The thread id of the notification matches that of the slot it names. */
  predicate Accepts(slots: Slots, n: Notification) {
    n.idx < |slots| && slots[n.idx].threadId == Some(n.id)
  }

  predicate InRange(slots: Slots, ns: seq<Notification>) {
    forall k :: 0 <= k < |ns| ==> ns[k].idx < |slots|
  }

  /** `notify`, which runs under the lock. */
  function NotifyStep(g: Gather, n: Notification): (g': Gather)
    requires n.idx < |g.slots|
    ensures |g'.slots| == |g.slots|
  {
    if !Accepts(g.slots, n) then
      g
    else
      var slots := g.slots[n.idx := g.slots[n.idx].(result := Some(n.result))];
      Gather(slots, g.reports + if Complete(slots) then [ClientCompute(Texts(slots))] else [])
  }

  /** All notifications of a run, in the order in which they got the lock. */
  function After(g: Gather, ns: seq<Notification>): (g': Gather)
    requires InRange(g.slots, ns)
    ensures |g'.slots| == |g.slots|
    decreases |ns|
  {
    if ns == [] then g else NotifyStep(After(g, ns[..|ns| - 1]), ns[|ns| - 1])
  }

  // ----- The class -----

  class ClientControllerSupervisor {
    const tree: ExprTree
    const maxH: nat
    var resultStack: Slots
    /** The final results posted to the user interface. */
    var reports: seq<Result<string, Fault>>

    constructor (expr: seq<Token>, maxH: nat)
      requires Rebuild(expr).Some?
      ensures fresh(tree) && tree.values == Rebuild(expr).value
      ensures this.maxH == maxH && resultStack == [] && reports == []
    {
      tree := new ExprTree.FromStack(expr);
      this.maxH, resultStack, reports := maxH, [], [];
    }

    ghost function State(): Gather
      reads this
    {
      Gather(resultStack, reports)
    }

    /** Compute a low tree at once; dispatch any other.  `t` is what the supervisor's tree holds, and `spawn`
        gives the ids of the threads the system creates. */
    method Run(ghost t: Tree, spawn: nat -> ThreadId) returns (tasks: seq<Task>)
      requires t.Rooted() && tree.values == t.Vector()
      requires resultStack == []
      modifies this
      ensures t.Height() <= maxH ==>
                && tasks == []
                && resultStack == LiteralSlots(t.Listed())
                && reports == old(reports) + [ClientCompute(t.Listed())]
      ensures t.Height() > maxH ==>
                && resultStack == Dispatched(Cut(t, Clamped(maxH)), spawn)
                && tasks == TasksOf(Cut(t, Clamped(maxH)), spawn)
                && reports == old(reports)
      ensures t.Height() > maxH >= 1 ==>
                resultStack == Dispatched(Cut(t, maxH), spawn) && tasks == TasksOf(Cut(t, maxH), spawn)
      ensures t.Height() > maxH == 0 ==>
                resultStack == Dispatched(Cut(t, 1), spawn) && tasks == TasksOf(Cut(t, 1), spawn)
    {
      hide Flatten, Tree.Vector, Tree.Listed, Tree.Branches, Cut, Dispatched, TasksOf, HeapHeight, ClientCompute;
      HeightOfVector(t);
      if tree.Height() <= maxH {
        AssignResultStack();
        RebuildInvertsFlatten(t);
        assert Texts(resultStack) == t.Listed();
        FinalComputation();
        tasks := [];
      } else {
        tasks := DispatchTree(t, spawn);
      }
    }

    method AssignResultStack()
      modifies this`resultStack
      ensures resultStack == old(resultStack) + LiteralSlots(Flatten(tree.values, 1))
    {
      hide Flatten;
      var stack := tree.ToStack(1);
      var it := 0;
      while it < |stack|
        invariant 0 <= it <= |stack|
        invariant resultStack == old(resultStack) + LiteralSlots(stack[..it])
      {
        assert LiteralSlots(stack[..it + 1]) == LiteralSlots(stack[..it]) + [LiteralSlot(stack[it])];
        resultStack := resultStack + [LiteralSlot(stack[it])];
        it := it + 1;
      }
      assert stack[..it] == stack;
    }

    method DispatchTree(ghost t: Tree, spawn: nat -> ThreadId) returns (tasks: seq<Task>)
      requires t.Rooted() && tree.values == t.Vector()
      requires resultStack == []
      modifies this`resultStack
      ensures resultStack == Dispatched(Cut(t, Clamped(maxH)), spawn)
      ensures tasks == TasksOf(Cut(t, Clamped(maxH)), spawn)
      ensures maxH >= 1 ==>
                resultStack == Dispatched(Cut(t, maxH), spawn) && tasks == TasksOf(Cut(t, maxH), spawn)
      ensures maxH == 0 ==>
                resultStack == Dispatched(Cut(t, 1), spawn) && tasks == TasksOf(Cut(t, 1), spawn)
    {
      hide Flatten, Cut, HeapHeight, Get, Dispatched, TasksOf, Tree.Vector, Tree.Rooted;
      var maxHeight := maxH;
      if maxHeight < 1 {
        maxHeight := 1;
      }
      ghost var ps := Cut(t, maxHeight);
      var chunkedTree := tree.Chunk(maxHeight, t);
      tasks := [];
      DispatchNone(spawn);
      var idx := 0;
      ChunksAreLow(t, maxHeight);
      while idx < |chunkedTree|
        invariant 0 <= idx <= |chunkedTree| == |ps|
        invariant forall i :: 0 <= i < |ps| ==> chunkedTree[i].values == ps[i].Vector()
        invariant resultStack == Dispatched(ps[..idx], spawn)
        invariant tasks == TasksOf(ps[..idx], spawn)
      {
        var it := chunkedTree[idx];
        assert it.values == ps[idx].Vector() != [];
        DispatchSnoc(ps, idx, spawn);
        if it.Height() == 0 {
          resultStack := resultStack + [LiteralSlot(Get(it.values, 1))];
        } else {
          var expr := it.ToStack(1);
          var id := spawn(idx);
          resultStack := resultStack + [ThreadResult(Some(id), None)];
          tasks := tasks + [Task(id, expr, idx)];
        }
        idx := idx + 1;
      }
      assert ps[..idx] == ps;
    }

    /** A task's answer.  An id that is not the slot's changes nothing. */
    method Notify(n: Notification)
      requires n.idx < |resultStack|
      modifies this
      ensures State() == NotifyStep(old(State()), n)
      ensures old(resultStack[n.idx].threadId) != Some(n.id) ==> State() == old(State())
      ensures old(resultStack[n.idx].threadId) == Some(n.id) ==>
                && resultStack == old(resultStack)[n.idx := ThreadResult(Some(n.id), Some(n.result))]
                && (reports != old(reports) ==> forall i :: 0 <= i < |resultStack| ==> resultStack[i].result.Some?)
    {
      if resultStack[n.idx].threadId != Some(n.id) {
        return;
      }
      resultStack := resultStack[n.idx := resultStack[n.idx].(result := Some(n.result))];
      var complete := IsResultComplete();
      if complete {
        FinalComputation();
      }
    }

    method IsResultComplete() returns (complete: bool)
      ensures complete <==> Complete(resultStack)
    {
      var it := 0;
      while it < |resultStack|
        invariant 0 <= it <= |resultStack|
        invariant forall i :: 0 <= i < it ==> resultStack[i].result.Some?
      {
        if resultStack[it].result.None? {
          return false;
        }
        it := it + 1;
      }
      return true;
    }

    /** Put the results in slot order and compute them on the client. */
    method FinalComputation()
      requires Complete(resultStack)
      modifies this`reports
      ensures reports == old(reports) + [ClientCompute(Texts(resultStack))]
    {
      var countStack: seq<Token> := [];
      var iter := 0;
      while iter < |resultStack|
        invariant 0 <= iter <= |resultStack|
        invariant countStack == Texts(resultStack)[..iter]
      {
        countStack := countStack + [resultStack[iter].result.value];
        iter := iter + 1;
      }
      assert countStack == Texts(resultStack);
      var comp := new Computer(countStack);
      var res := comp.Compute();
      reports := reports + [res];
    }
  }

  // ----- Every interleaving -----

  /** The state when dispatch has finished: exactly the slots without a thread hold a result. */
  predicate Pending(slots: Slots) {
    forall i :: 0 <= i < |slots| ==> (slots[i].result.None? <==> slots[i].threadId.Some?)
  }

  predicate Answered(slots: Slots, ns: seq<Notification>, i: nat) {
    exists k :: 0 <= k < |ns| && Accepts(slots, ns[k]) && ns[k].idx == i
  }

  /** Every task notifies once, among any number of notifications that no slot accepts. */
  ghost predicate OncePerTask(slots: Slots, ns: seq<Notification>) {
    && InRange(slots, ns)
    && (forall i: nat :: i < |slots| && slots[i].threadId.Some? ==> Answered(slots, ns, i))
    && (forall j, k :: 0 <= j < k < |ns| && Accepts(slots, ns[j]) && Accepts(slots, ns[k]) ==> ns[j].idx != ns[k].idx)
  }

  /** Thread ids never change, and a slot holds a result exactly if it did before or has been answered. */
  lemma {:induction false} SlotsAfter(g: Gather, ns: seq<Notification>)
    requires InRange(g.slots, ns)
    ensures forall i :: 0 <= i < |g.slots| ==>
              && After(g, ns).slots[i].threadId == g.slots[i].threadId
              && (After(g, ns).slots[i].result.Some? <==> g.slots[i].result.Some? || Answered(g.slots, ns, i))
              && (!Answered(g.slots, ns, i) ==> After(g, ns).slots[i] == g.slots[i])
    decreases |ns|
  {
    hide ClientCompute;
    if ns != [] {
      var front, n := ns[..|ns| - 1], ns[|ns| - 1];
      SlotsAfter(g, front);
      forall i: nat | i < |g.slots|
        ensures Answered(g.slots, ns, i) <==>
                Answered(g.slots, front, i) || (Accepts(g.slots, n) && n.idx == i)
      {
        AnsweredSnoc(g.slots, front, n, i);
        assert ns == front + [n];
      }
    }
  }

  lemma AnsweredSnoc(slots: Slots, front: seq<Notification>, n: Notification, i: nat)
    ensures Answered(slots, front + [n], i) <==> Answered(slots, front, i) || (Accepts(slots, n) && n.idx == i)
  {
    var ns := front + [n];
    if Answered(slots, front, i) {
      var k :| 0 <= k < |front| && Accepts(slots, front[k]) && front[k].idx == i;
      assert ns[k] == front[k];
    }
    assert ns[|front|] == n;
  }

  /** A slot answered once keeps that answer. */
  lemma {:induction false} AnswerKept(g: Gather, ns: seq<Notification>, k: nat)
    requires InRange(g.slots, ns) && k < |ns| && Accepts(g.slots, ns[k])
    requires forall j :: k < j < |ns| && Accepts(g.slots, ns[j]) ==> ns[j].idx != ns[k].idx
    ensures After(g, ns).slots[ns[k].idx].result == Some(ns[k].result)
    decreases |ns|
  {
    hide ClientCompute;
    var front := ns[..|ns| - 1];
    SlotsAfter(g, front);
    if k < |front| {
      AnswerKept(g, front, k);
    }
  }

  /** The last notification that is accepted. */
  lemma LastAccepted(slots: Slots, ns: seq<Notification>) returns (m: nat)
    requires exists k :: 0 <= k < |ns| && Accepts(slots, ns[k])
    ensures m < |ns| && Accepts(slots, ns[m])
    ensures forall k :: m < k < |ns| ==> !Accepts(slots, ns[k])
  {
    m := |ns| - 1;
    while !Accepts(slots, ns[m])
      invariant m < |ns|
      invariant forall k :: m < k < |ns| ==> !Accepts(slots, ns[k])
      decreases m
    {
      m := m - 1;
    }
  }

  /** Nothing is reported before the last accepted notification. */
  lemma {:induction false} SilentBefore(g: Gather, ns: seq<Notification>, m: nat, k: nat)
    requires Pending(g.slots) && OncePerTask(g.slots, ns)
    requires k <= m < |ns| && Accepts(g.slots, ns[m])
    ensures InRange(g.slots, ns[..k]) && After(g, ns[..k]).reports == g.reports
    decreases k
  {
    hide ClientCompute;
    if k > 0 {
      SilentBefore(g, ns, m, k - 1);
      assert ns[..k][..k - 1] == ns[..k - 1];
      SlotsAfter(g, ns[..k]);
      assert !Answered(g.slots, ns[..k], ns[m].idx);
    }
  }

  /** Nothing changes after it. */
  lemma {:induction false} QuietAfter(g: Gather, ns: seq<Notification>, m: nat, k: nat)
    requires InRange(g.slots, ns) && m < k <= |ns|
    requires forall j :: m < j < |ns| ==> !Accepts(g.slots, ns[j])
    ensures After(g, ns[..k]) == After(g, ns[..m + 1])
    decreases k
  {
    hide ClientCompute, Complete, Texts, Answered;
    if k > m + 1 {
      QuietAfter(g, ns, m, k - 1);
      assert ns[..k][..k - 1] == ns[..k - 1] && ns[..k][k - 1] == ns[k - 1];
      SlotsAfter(g, ns[..k - 1]);
      assert !Accepts(After(g, ns[..k - 1]).slots, ns[k - 1]);
    }
  }

  /** The last accepted notification finds every slot filled and reports. */
  lemma ReportAtLast(g: Gather, ns: seq<Notification>, m: nat)
    requires Pending(g.slots) && OncePerTask(g.slots, ns)
    requires m < |ns| && Accepts(g.slots, ns[m])
    requires forall j :: m < j < |ns| ==> !Accepts(g.slots, ns[j])
    ensures InRange(g.slots, ns[..m + 1]) && Complete(After(g, ns[..m + 1]).slots)
    ensures After(g, ns[..m + 1]).reports == g.reports + [ClientCompute(Texts(After(g, ns[..m + 1]).slots))]
  {
    hide ClientCompute;
    var upTo := ns[..m + 1];
    assert upTo[..m] == ns[..m] && upTo[m] == ns[m];
    SilentBefore(g, ns, m, m);
    SlotsAfter(g, ns[..m]);
    SlotsAfter(g, upTo);
    forall i: nat | i < |g.slots| && g.slots[i].threadId.Some?
      ensures Answered(g.slots, upTo, i)
    {
      assert Answered(g.slots, ns, i);
      var k :| 0 <= k < |ns| && Accepts(g.slots, ns[k]) && ns[k].idx == i;
      assert upTo[k] == ns[k];
    }
  }

  /** After dispatch, in every interleaving in which each task notifies once: literal slots keep their
      text, every task's slot ends with that task's answer, and the final computation runs exactly
      once, at the last task's notification, on the slots in their original order. */
  lemma FinalComputationOnce(g: Gather, ns: seq<Notification>) returns (m: nat)
    requires Pending(g.slots) && OncePerTask(g.slots, ns)
    requires exists i :: 0 <= i < |g.slots| && g.slots[i].threadId.Some?
    ensures m < |ns| && Accepts(g.slots, ns[m])
    ensures forall k :: 0 <= k <= m ==> After(g, ns[..k]).reports == g.reports
    ensures Complete(After(g, ns).slots)
    ensures forall k :: m < k <= |ns| ==>
              After(g, ns[..k]) == After(g, ns)
              && After(g, ns[..k]).reports == g.reports + [ClientCompute(Texts(After(g, ns).slots))]
    ensures forall i :: 0 <= i < |g.slots| && g.slots[i].threadId.None? ==> After(g, ns).slots[i] == g.slots[i]
    ensures forall k :: 0 <= k < |ns| && Accepts(g.slots, ns[k]) ==>
              After(g, ns).slots[ns[k].idx].result == Some(ns[k].result)
  {
    hide ClientCompute, Complete, Texts, After, NotifyStep;
    var i :| 0 <= i < |g.slots| && g.slots[i].threadId.Some?;
    assert Answered(g.slots, ns, i);
    m := LastAccepted(g.slots, ns);
    assert ns[..|ns|] == ns;
    ReportAtLast(g, ns, m);
    QuietAfter(g, ns, m, |ns|);
    forall k | 0 <= k <= m
      ensures After(g, ns[..k]).reports == g.reports
    {
      SilentBefore(g, ns, m, k);
    }
    forall k | m < k <= |ns|
      ensures After(g, ns[..k]) == After(g, ns)
    {
      QuietAfter(g, ns, m, k);
    }
    SlotsAfter(g, ns);
    forall k | 0 <= k < |ns| && Accepts(g.slots, ns[k])
      ensures After(g, ns).slots[ns[k].idx].result == Some(ns[k].result)
    {
      AnswerKept(g, ns, k);
    }
  }

  predicate AllAnswered(slots: Slots, ns: seq<Notification>) {
    forall i: nat :: i < |slots| && slots[i].threadId.Some? ==> Answered(slots, ns, i)
  }

  /** How many accepted notifications come when every task has answered. */
  function Completions(slots: Slots, ns: seq<Notification>): nat
    decreases |ns|
  {
    if ns == [] then
      0
    else
      Completions(slots, ns[..|ns| - 1])
      + if Accepts(slots, ns[|ns| - 1]) && AllAnswered(slots, ns) then 1 else 0
  }

  /** In any run whatever, also if tasks notify repeatedly or never, the number of final computations is the
      number of accepted notifications that find every task answered. */
  lemma {:induction false} ReportsCounted(g: Gather, ns: seq<Notification>)
    requires Pending(g.slots) && InRange(g.slots, ns)
    ensures |After(g, ns).reports| == |g.reports| + Completions(g.slots, ns)
    decreases |ns|
  {
    hide ClientCompute;
    if ns != [] {
      ReportsCounted(g, ns[..|ns| - 1]);
      SlotsAfter(g, ns[..|ns| - 1]);
      SlotsAfter(g, ns);
    }
  }
}
