/** The vector of `ExprTree`: an expression kept as a binary heap in a vector, root at position 1 and the
    children of `n` at `2n` and `2n+1`; "N" marks a position that holds nothing. */
module HeapTree {
  import opened Results
  import opened Postfix

  const NULL: Token := "N"

  type Heap = seq<Token>

  /** Positions count from 1. */
  type Nth = n: int | n >= 1 witness 1

  function Get(v: Heap, nth: Nth): Token {
    if |v| < nth then NULL else v[nth - 1]
  }

  function Put(v: Heap, nth: Nth, x: Token): Heap {
    if nth > |v| then v + seq(nth - 1 - |v|, _ => NULL) + [x] else v[nth - 1 := x]
  }

  lemma GetPut(v: Heap, nth: Nth, x: Token)
    ensures |Put(v, nth, x)| == if nth > |v| then nth else |v|
    ensures forall j: Nth :: Get(Put(v, nth, x), j) == if j == nth then x else Get(v, j)
  {
  }

  function FloorLog2(n: nat): nat {
    if n < 2 then 0 else 1 + FloorLog2(n / 2)
  }

  function Pow2(k: nat): (n: nat)
    ensures n >= 1
  {
    if k == 0 then 1 else 2 * Pow2(k - 1)
  }

  /** `height()` of a vector that is not empty: `log2(values.size())` cut to an integer. */
  function HeapHeight(v: Heap): nat {
    FloorLog2(|v|)
  }

  // ----- Rebuilding -----

  /** Where the next token goes: to the right child of an operator just placed, or to the left child
      of the operator that has waited least (`wasOp` 1 and 0). */
  datatype Site = RightOf(parent: Nth) | LeftOfTop

  /** The loop of `regenerate` on the tokens not yet read, which it takes from the end; nothing if it
      pops an empty stack. */
  function Grow(v: Heap, emptyBranch: seq<Nth>, site: Site, p: seq<Token>): Option<Heap>
    decreases |p|
  {
    if p == [] then
      Some(v)
    else
      var x := p[|p| - 1];
      match site
      case RightOf(parent) =>
        var slot := 2 * parent + 1;
        Grow(Put(v, slot, x), emptyBranch + [parent], if IsOp(x) then RightOf(slot) else LeftOfTop, p[..|p| - 1])
      case LeftOfTop =>
        if emptyBranch == [] then
          None
        else
          var slot := 2 * emptyBranch[|emptyBranch| - 1];
          Grow(Put(v, slot, x), emptyBranch[..|emptyBranch| - 1],
               if IsOp(x) then RightOf(slot) else LeftOfTop, p[..|p| - 1])
  }

  /** `regenerate`: the last token becomes the root, operator or not. */
  function Rebuild(p: seq<Token>): Option<Heap> {
    if p == [] then Some([]) else Grow(Put([], 1, p[|p| - 1]), [], RightOf(1), p[..|p| - 1])
  }

  /** `toStack`: the subtree at `nth` in post order. */
  function Flatten(v: Heap, nth: Nth): seq<Token>
    decreases if nth > |v| then 0 else |v| - nth + 1
  {
    var op := IsOp(Get(v, nth));
    (if op && Get(v, 2 * nth) != NULL then NullIsNotOp(v, nth); Flatten(v, 2 * nth) else [])
    + (if op && Get(v, 2 * nth + 1) != NULL then NullIsNotOp(v, nth); Flatten(v, 2 * nth + 1) else [])
    + [Get(v, nth)]
  }

  lemma NullIsNotOp(v: Heap, nth: Nth)
    requires IsOp(Get(v, nth))
    ensures nth <= |v|
  {
  }

  // ----- The trees a vector can hold -----

  /** A tree of tokens in which places may be empty. */
  datatype Tree = Gap | Node(token: Token, left: Tree, right: Tree) {

    /** Every operator has both operands, every other token none. */
    predicate Full() {
      Node? && token != NULL && if IsOp(token) then left.Full() && right.Full() else left.Gap? && right.Gap?
    }

    /** What reading a list from its end has built when the list breaks off: a left operand is begun only when
        the right one is full. */
    predicate Partial()
      decreases this, 1
    {
      Node? ==> token != NULL && if IsOp(token) then Branches() else left.Gap? && right.Gap?
    }

    predicate Branches()
      requires Node?
      decreases this, 0
    {
      (right.Full() && left.Partial()) || (left.Gap? && right.Partial())
    }

    /** The trees `regenerate` builds: the root has branches even if it is no operator. */
    predicate Rooted() {
      Node? && token != NULL && Branches()
    }

    /** Number of edges on the longest path down from the root. */
    function Height(): (h: int)
      ensures h >= if Node? then 0 else -1
    {
      if Gap? then -1 else 1 + if left.Height() > right.Height() then left.Height() else right.Height()
    }

    /** The tokens in post order. */
    function Tokens(): seq<Token> {
      if Gap? then [] else left.Tokens() + right.Tokens() + [token]
    }

    /** The list `toStack` gives: it looks for branches only below operators. */
    function Listed(): seq<Token> {
      if Gap? then
        [NULL]
      else
        (if IsOp(token) && left.Node? then left.Listed() else [])
        + (if IsOp(token) && right.Node? then right.Listed() else [])
        + [token]
    }

    /** The vector of a tree whose root is at position 1. */
    function Vector(): Heap {
      Plant([], 1, this)
    }
  }

  function Leaf(x: Token): Tree {
    Node(x, Gap, Gap)
  }

  lemma {:induction false} FullIsPartial(t: Tree)
    requires t.Full()
    ensures t.Partial()
  {
    if IsOp(t.token) {
      FullIsPartial(t.left);
    }
  }

  /** Below the root nothing is lost by looking only below operators. */
  lemma {:induction false} ListedIsTokens(t: Tree)
    requires t.Partial() && t.Node?
    ensures t.Listed() == t.Tokens()
  {
    hide IsOp;
    if IsOp(t.token) {
      if t.left.Node? {
        ListedIsTokens(t.left);
      }
      if t.right.Node? {
        if t.right.Full() {
          FullIsPartial(t.right);
        }
        ListedIsTokens(t.right);
      }
    }
  }

  /** `j` is `i` or lies below it. */
  predicate Under(i: Nth, j: Nth) {
    j == i || (j > i && Under(i, j / 2))
  }

  lemma {:induction false} SiblingsApart(i: Nth, j: Nth)
    ensures !(Under(2 * i, j) && Under(2 * i + 1, j))
    decreases j
  {
    if j > 2 * i + 1 {
      SiblingsApart(i, j / 2);
    }
  }

  lemma {:induction false} UnderChild(i: Nth, j: Nth)
    requires Under(2 * i, j) || Under(2 * i + 1, j)
    ensures Under(i, j) && j != i
    decreases j
  {
    if j > 2 * i + 1 {
      UnderChild(i, j / 2);
    } else {
      assert Under(i, j / 2);
    }
  }

  /** Nothing is stored at `i` or below. */
  ghost predicate Vacant(v: Heap, i: Nth) {
    forall j: Nth :: Under(i, j) ==> Get(v, j) == NULL
  }

  /** The tree `t` is stored at `i`; nothing stands where it has a gap. */
  ghost predicate Holds(v: Heap, i: Nth, t: Tree)
    decreases t
  {
    match t
    case Gap => Get(v, i) == NULL
    case Node(x, l, r) => Get(v, i) == x && Holds(v, 2 * i, l) && Holds(v, 2 * i + 1, r)
  }

  /** The vector after `t` has been stored at `i`, right branch first. */
  function Plant(v: Heap, i: Nth, t: Tree): Heap
    decreases t
  {
    match t
    case Gap => v
    case Node(x, l, r) => Plant(Plant(Put(v, i, x), 2 * i + 1, r), 2 * i, l)
  }

  /** The greatest position `t` takes when its root is at `i`. */
  function MaxIndex(i: Nth, t: Tree): nat
    decreases t
  {
    match t
    case Gap => 0
    case Node(_, l, r) => Max(i, Max(MaxIndex(2 * i, l), MaxIndex(2 * i + 1, r)))
  }

  function Max(a: nat, b: nat): nat {
    if a > b then a else b
  }

  lemma {:induction false} PlantFrame(v: Heap, i: Nth, t: Tree, j: Nth)
    requires !Under(i, j)
    ensures Get(Plant(v, i, t), j) == Get(v, j)
    decreases t
  {
    match t
    case Gap =>
    case Node(x, l, r) =>
      if Under(2 * i, j) || Under(2 * i + 1, j) {
        UnderChild(i, j);
      }
      var v1 := Put(v, i, x);
      PlantFrame(v1, 2 * i + 1, r, j);
      PlantFrame(Plant(v1, 2 * i + 1, r), 2 * i, l, j);
  }

  lemma {:induction false} HoldsFrame(v: Heap, w: Heap, i: Nth, t: Tree)
    requires Holds(v, i, t)
    requires forall j: Nth :: Under(i, j) ==> Get(w, j) == Get(v, j)
    ensures Holds(w, i, t)
    decreases t
  {
    hide Get;
    assert Under(i, i);
    match t
    case Gap =>
    case Node(_, l, r) =>
      forall j: Nth | Under(2 * i, j) || Under(2 * i + 1, j)
        ensures Under(i, j)
      {
        UnderChild(i, j);
      }
      HoldsFrame(v, w, 2 * i, l);
      HoldsFrame(v, w, 2 * i + 1, r);
  }

  /** Placing a root leaves both places below it free. */
  lemma VacantChildren(v: Heap, i: Nth, x: Token)
    requires Vacant(v, i)
    ensures Vacant(Put(v, i, x), 2 * i) && Vacant(Put(v, i, x), 2 * i + 1)
  {
    GetPut(v, i, x);
    forall j: Nth | Under(2 * i, j) || Under(2 * i + 1, j)
      ensures Get(Put(v, i, x), j) == NULL
    {
      UnderChild(i, j);
    }
  }

  /** Storing the right branch does not touch the left branch's place. */
  lemma VacantBeside(v: Heap, i: Nth, r: Tree)
    requires Vacant(v, 2 * i)
    ensures Vacant(Plant(v, 2 * i + 1, r), 2 * i)
  {
    forall j: Nth | Under(2 * i, j)
      ensures Get(Plant(v, 2 * i + 1, r), j) == NULL
    {
      SiblingsApart(i, j);
      PlantFrame(v, 2 * i + 1, r, j);
    }
  }

  /** A tree stored in free space is there, with its gaps. */
  lemma {:induction false} PlantHolds(v: Heap, i: Nth, t: Tree)
    requires Vacant(v, i)
    ensures Holds(Plant(v, i, t), i, t)
    decreases t
  {
    hide Get;
    assert Under(i, i);
    match t
    case Gap =>
    case Node(x, l, r) =>
      GetPut(v, i, x);
      VacantChildren(v, i, x);
      var v1 := Put(v, i, x);
      var v2 := Plant(v1, 2 * i + 1, r);
      var v3 := Plant(v2, 2 * i, l);
      PlantHolds(v1, 2 * i + 1, r);
      VacantBeside(v1, i, r);
      PlantHolds(v2, 2 * i, l);
      forall j: Nth | Under(2 * i + 1, j)
        ensures Get(v3, j) == Get(v2, j)
      {
        SiblingsApart(i, j);
        PlantFrame(v2, 2 * i, l, j);
      }
      HoldsFrame(v2, v3, 2 * i + 1, r);
      PlantFrame(v1, 2 * i + 1, r, i);
      PlantFrame(v2, 2 * i, l, i);
  }

  lemma {:induction false} PlantSize(v: Heap, i: Nth, t: Tree)
    ensures |Plant(v, i, t)| == Max(MaxIndex(i, t), |v|)
    decreases t
  {
    if t.Node? {
      var v1 := Put(v, i, t.token);
      PlantSize(v1, 2 * i + 1, t.right);
      PlantSize(Plant(v1, 2 * i + 1, t.right), 2 * i, t.left);
    }
  }

  lemma VacantEverywhere()
    ensures Vacant([], 1)
  {
  }

  lemma VectorHolds(t: Tree)
    ensures Holds(t.Vector(), 1, t)
  {
    VacantEverywhere();
    PlantHolds([], 1, t);
  }

  // ----- Flattening -----

  /** Flattening a stored tree gives its list; flattening a gap gives "N". */
  lemma {:induction false} FlattenHolds(v: Heap, i: Nth, t: Tree)
    requires Holds(v, i, t) && NULL !in t.Tokens()
    ensures Flatten(v, i) == t.Listed()
    decreases t
  {
    hide IsOp, Get;
    NullIsNoOp();
    if t.Node? {
      NoNullBelow(t);
      if t.left.Node? {
        NoNullBelow(t.left);
        FlattenHolds(v, 2 * i, t.left);
      }
      if t.right.Node? {
        NoNullBelow(t.right);
        FlattenHolds(v, 2 * i + 1, t.right);
      }
    }
  }

  lemma NoNullBelow(t: Tree)
    requires t.Node? && NULL !in t.Tokens()
    ensures t.token != NULL && NULL !in t.left.Tokens() && NULL !in t.right.Tokens()
  {
    var a, b := t.left.Tokens(), t.right.Tokens();
    assert t.Tokens()[|a + b|] == t.token;
    assert forall x :: x in a || x in b ==> x in t.Tokens();
  }

  lemma NullIsNoOp()
    ensures !IsOp(NULL)
  {
  }

  lemma {:induction false} PartialTokens(t: Tree)
    requires t.Partial()
    ensures NULL !in t.Tokens()
    decreases t, 1
  {
    if t.Node? {
      BranchTokens(t);
    }
  }

  lemma {:induction false} BranchTokens(t: Tree)
    requires t.Node? && t.token != NULL && (t.Branches() || (t.left.Gap? && t.right.Gap?))
    ensures NULL !in t.Tokens() && NULL !in t.left.Tokens() && NULL !in t.right.Tokens()
    decreases t, 0
  {
    if t.right.Full() {
      FullIsPartial(t.right);
    }
    PartialTokens(t.left);
    PartialTokens(t.right);
  }

  // ----- Rebuilding -----

  ghost function SiteSlot(emptyBranch: seq<Nth>, site: Site): Nth
    requires site.LeftOfTop? ==> emptyBranch != []
  {
    match site
    case RightOf(parent) => 2 * parent + 1
    case LeftOfTop => 2 * emptyBranch[|emptyBranch| - 1]
  }

  ghost function BranchesAfter(emptyBranch: seq<Nth>, site: Site): seq<Nth>
    requires site.LeftOfTop? ==> emptyBranch != []
  {
    match site
    case RightOf(parent) => emptyBranch + [parent]
    case LeftOfTop => emptyBranch[..|emptyBranch| - 1]
  }

  /** Every token `Grow` places goes to a position that held nothing, the stack is never popped when it is
      empty, and at the end it holds `pending` branches. */
  ghost predicate GrowsCleanly(v: Heap, emptyBranch: seq<Nth>, site: Site, p: seq<Token>, pending: nat)
    decreases |p|
  {
    if p == [] then
      |emptyBranch| == pending
    else
      && (site.LeftOfTop? ==> emptyBranch != [])
      && var x, slot := p[|p| - 1], SiteSlot(emptyBranch, site);
         && Get(v, slot) == NULL
         && GrowsCleanly(Put(v, slot, x), BranchesAfter(emptyBranch, site),
                         if IsOp(x) then RightOf(slot) else LeftOfTop, p[..|p| - 1], pending)
  }

  lemma GrowStep(v: Heap, emptyBranch: seq<Nth>, site: Site, before: seq<Token>, x: Token, pending: nat)
    requires site.LeftOfTop? ==> emptyBranch != []
    ensures
      var slot, stack := SiteSlot(emptyBranch, site), BranchesAfter(emptyBranch, site);
      var site' := if IsOp(x) then RightOf(slot) else LeftOfTop;
      && Grow(v, emptyBranch, site, before + [x]) == Grow(Put(v, slot, x), stack, site', before)
      && (Get(v, slot) == NULL ==>
            (GrowsCleanly(v, emptyBranch, site, before + [x], pending)
             <==> GrowsCleanly(Put(v, slot, x), stack, site', before, pending)))
  {
    assert (before + [x])[..|before|] == before;
  }

  lemma VacantRoot(v: Heap, i: Nth)
    requires Vacant(v, i)
    ensures Get(v, i) == NULL
  {
    assert Under(i, i);
  }

  lemma GrowDone(v: Heap, emptyBranch: seq<Nth>, site: Site)
    ensures Grow(v, emptyBranch, site, []) == Some(v) && GrowsCleanly(v, emptyBranch, site, [], |emptyBranch|)
  {
  }

  /** Reading the list of a full tree from its end stores the tree at the next free place and uses up exactly
      one pending place. */
  lemma {:induction false} GrowFull(
      t: Tree, v: Heap, emptyBranch: seq<Nth>, site: Site, before: seq<Token>, pending: nat)
    requires t.Full()
    requires site.LeftOfTop? ==> emptyBranch != []
    requires Vacant(v, SiteSlot(emptyBranch, site))
    ensures
      var slot, stack := SiteSlot(emptyBranch, site), BranchesAfter(emptyBranch, site);
      && Grow(v, emptyBranch, site, before + t.Tokens()) == Grow(Plant(v, slot, t), stack, LeftOfTop, before)
      && (GrowsCleanly(v, emptyBranch, site, before + t.Tokens(), pending)
          <==> GrowsCleanly(Plant(v, slot, t), stack, LeftOfTop, before, pending))
    decreases t
  {
    hide IsOp, Get, Put, Grow, GrowsCleanly, Vacant;
    var slot, stack := SiteSlot(emptyBranch, site), BranchesAfter(emptyBranch, site);
    var x, l, r := t.token, t.left, t.right;
    var v1 := Put(v, slot, x);
    VacantRoot(v, slot);
    TokensAfter(before, t);
    GrowStep(v, emptyBranch, site, before + l.Tokens() + r.Tokens(), x, pending);
    if IsOp(x) {
      var v2 := Plant(v1, 2 * slot + 1, r);
      VacantChildren(v, slot, x);
      GrowFull(r, v1, stack, RightOf(slot), before + l.Tokens(), pending);
      VacantBeside(v1, slot, r);
      GrowFull(l, v2, stack + [slot], LeftOfTop, before, pending);
      assert BranchesAfter(stack + [slot], LeftOfTop) == stack;
    } else {
      assert before + l.Tokens() + r.Tokens() == before;
    }
  }

  lemma TokensAfter(before: seq<Token>, t: Tree)
    requires t.Node?
    ensures before + t.Tokens() == before + t.left.Tokens() + t.right.Tokens() + [t.token]
  {
    hide Tree.Tokens;
    assert t.Tokens() == t.left.Tokens() + t.right.Tokens() + [t.token] by { TokensOf(t); }
  }

  lemma TokensOf(t: Tree)
    requires t.Node?
    ensures t.Tokens() == t.left.Tokens() + t.right.Tokens() + [t.token]
  {
  }

  /** Reading the list of a partial tree to its beginning stores the tree. */
  lemma {:induction false} GrowPartial(t: Tree, v: Heap, emptyBranch: seq<Nth>, site: Site) returns (pending: nat)
    requires t.Partial() && (site.LeftOfTop? ==> emptyBranch != [])
    requires Vacant(v, SiteSlot(emptyBranch, site))
    ensures Grow(v, emptyBranch, site, t.Tokens()) == Some(Plant(v, SiteSlot(emptyBranch, site), t))
    ensures GrowsCleanly(v, emptyBranch, site, t.Tokens(), pending)
    decreases t, 1
  {
    hide IsOp, Get, Put, Grow, GrowsCleanly, Vacant;
    if t.Gap? {
      GrowDone(v, emptyBranch, site);
      return |emptyBranch|;
    }
    var slot, stack := SiteSlot(emptyBranch, site), BranchesAfter(emptyBranch, site);
    var v1 := Put(v, slot, t.token);
    VacantRoot(v, slot);
    VacantChildren(v, slot, t.token);
    if IsOp(t.token) {
      pending := GrowBranches(t, v1, stack, slot);
    } else {
      GrowDone(v1, stack, LeftOfTop);
      assert t.left.Tokens() + t.right.Tokens() == [];
      pending := |stack|;
    }
    GrowStep(v, emptyBranch, site, t.left.Tokens() + t.right.Tokens(), t.token, pending);
  }

  /** The same for the branches of a root that has just been placed. */
  lemma {:induction false} GrowBranches(t: Tree, v: Heap, stack: seq<Nth>, slot: Nth) returns (pending: nat)
    requires t.Node? && t.Branches() && Vacant(v, 2 * slot) && Vacant(v, 2 * slot + 1)
    ensures Grow(v, stack, RightOf(slot), t.left.Tokens() + t.right.Tokens()) ==
            Some(Plant(Plant(v, 2 * slot + 1, t.right), 2 * slot, t.left))
    ensures GrowsCleanly(v, stack, RightOf(slot), t.left.Tokens() + t.right.Tokens(), pending)
    ensures t.left.Full() && t.right.Full() ==> pending == |stack|
    decreases t, 0
  {
    hide IsOp, Get, Put, Grow, GrowsCleanly, Vacant;
    if t.right.Full() && t.left.Partial() {
      var v2 := Plant(v, 2 * slot + 1, t.right);
      VacantBeside(v, slot, t.right);
      if t.left.Full() {
        pending := |stack|;
        GrowFull(t.right, v, stack, RightOf(slot), t.left.Tokens(), pending);
        GrowFull(t.left, v2, stack + [slot], LeftOfTop, [], pending);
        assert [] + t.left.Tokens() == t.left.Tokens() && BranchesAfter(stack + [slot], LeftOfTop) == stack;
        GrowDone(Plant(v2, 2 * slot, t.left), stack, LeftOfTop);
      } else {
        pending := GrowPartial(t.left, v2, stack + [slot], LeftOfTop);
        GrowFull(t.right, v, stack, RightOf(slot), t.left.Tokens(), pending);
      }
    } else {
      assert t.left.Tokens() + t.right.Tokens() == t.right.Tokens();
      pending := GrowPartial(t.right, v, stack, RightOf(slot));
    }
  }

  /** `regenerate` on the tokens of such a tree stores the tree, without popping an empty stack or writing to an
      occupied position, and no branch is pending at the end if both branches are full. */
  lemma RebuildRooted(t: Tree) returns (pending: nat)
    requires t.Rooted()
    ensures Rebuild(t.Tokens()) == Some(t.Vector())
    ensures GrowsCleanly([t.token], [], RightOf(1), t.left.Tokens() + t.right.Tokens(), pending)
    ensures t.left.Full() && t.right.Full() ==> pending == 0
  {
    hide IsOp, Grow, GrowsCleanly, Vacant, Get, Put;
    var p := t.left.Tokens() + t.right.Tokens();
    PutRoot(t.token);
    VacantEverywhere();
    VacantChildren([], 1, t.token);
    pending := GrowBranches(t, [t.token], [], 1);
    assert t.Tokens()[..|p|] == p;
  }

  lemma PutRoot(x: Token)
    ensures Put([], 1, x) == [x]
  {
  }

  /** Flatten a branch, then rebuild: the branch has a vector of its own; a gap becomes a tree of "N". */
  function OrNull(t: Tree): Tree {
    if t.Gap? then Leaf(NULL) else t
  }

  lemma RebuildBranch(t: Tree)
    requires t.Partial()
    ensures Rebuild(t.Listed()) == Some(OrNull(t).Vector())
    ensures t.Node? ==> t.Rooted()
  {
    hide IsOp, Grow, Get, Put;
    if t.Node? {
      ListedIsTokens(t);
      PartialIsRooted(t);
      var pending := RebuildRooted(t);
    } else {
      PutRoot(NULL);
      GrowDone([NULL], [], RightOf(1));
      assert [NULL][..0] == [];
    }
  }

  lemma PartialIsRooted(t: Tree)
    requires t.Partial() && t.Node?
    ensures t.Rooted()
  {
  }

  // ----- Which lists can be rebuilt -----

  /** The operand at the end of a list, as far as it is there, and the tokens before it. */
  function ReadOperand(p: seq<Token>): (r: (Tree, seq<Token>))
    ensures |r.1| <= |p| && (p != [] ==> |r.1| < |p|)
    decreases |p|
  {
    if p == [] then
      (Gap, [])
    else
      var front, x := p[..|p| - 1], p[|p| - 1];
      if IsOp(x) then
        var (r, middle) := ReadOperand(front);
        var (l, rest) := ReadOperand(middle);
        (Node(x, l, r), rest)
      else
        (Leaf(x), front)
  }

  /** The tree of a whole list; nothing if tokens are left over. */
  function TreeOfList(p: seq<Token>): Option<Tree>
    requires p != []
  {
    var (r, middle) := ReadOperand(p[..|p| - 1]);
    var (l, rest) := ReadOperand(middle);
    if rest == [] then Some(Node(p[|p| - 1], l, r)) else None
  }

  lemma {:induction false} ReadOperandTokens(p: seq<Token>)
    requires NULL !in p
    ensures
      var (t, rest) := ReadOperand(p);
      && p == rest + t.Tokens() && NULL !in rest
      && t.Partial() && (p != [] ==> t.Node?) && (rest != [] ==> t.Full())
    decreases |p|
  {
    hide IsOp;
    if p != [] {
      var front, x := p[..|p| - 1], p[|p| - 1];
      assert p == front + [x];
      if IsOp(x) {
        ReadOperandTokens(front);
        var (r, middle) := ReadOperand(front);
        ReadOperandTokens(middle);
        var (l, rest) := ReadOperand(middle);
        OperatorTokens(rest, x, l, r);
      } else {
        assert Leaf(x).Tokens() == [x];
      }
    }
  }

  lemma OperatorTokens(rest: seq<Token>, x: Token, l: Tree, r: Tree)
    ensures rest + l.Tokens() + r.Tokens() + [x] == rest + Node(x, l, r).Tokens()
  {
    TokensAfter(rest, Node(x, l, r));
  }

  /** `regenerate` is defined exactly on the lists that are the tokens of a tree, well formed or broken off or
      with a root that is no operator, and stores that tree; on any other it pops an empty stack. */
  lemma RebuildExactly(p: seq<Token>)
    requires p != [] && NULL !in p
    ensures Rebuild(p) == match TreeOfList(p) case Some(t) => Some(t.Vector()) case None => None
    ensures TreeOfList(p).Some? ==> TreeOfList(p).value.Rooted() && TreeOfList(p).value.Tokens() == p
  {
    hide IsOp, Grow, Get, Put, Vacant, ReadOperand;
    var front, x := p[..|p| - 1], p[|p| - 1];
    assert p == front + [x];
    ReadOperandTokens(front);
    var (r, middle) := ReadOperand(front);
    ReadOperandTokens(middle);
    var (l, rest) := ReadOperand(middle);
    var t := Node(x, l, r);
    assert front == rest + l.Tokens() + r.Tokens();
    if rest == [] {
      assert middle == [] ==> l.Gap? by { ReadNothing(); }
      assert p == t.Tokens();
      var pending := RebuildRooted(t);
    } else {
      LeftoverFails(t, rest);
    }
  }

  lemma ReadNothing()
    ensures ReadOperand([]) == (Gap, [])
  {
  }

  lemma LeftoverFails(t: Tree, rest: seq<Token>)
    requires t.Node? && t.left.Full() && t.right.Full() && rest != []
    ensures Rebuild(rest + t.left.Tokens() + t.right.Tokens() + [t.token]) == None
  {
    hide IsOp, Get, Put, Vacant, GrowsCleanly, Grow;
    var v, l, r := [t.token], t.left, t.right;
    var p := rest + l.Tokens() + r.Tokens();
    PutRoot(t.token);
    VacantEverywhere();
    VacantChildren([], 1, t.token);
    assert (p + [t.token])[..|p|] == p;
    GrowFull(r, v, [], RightOf(1), rest + l.Tokens(), 0);
    VacantBeside(v, 1, r);
    assert BranchesAfter([], RightOf(1)) == [1] && BranchesAfter([1], LeftOfTop) == [];
    GrowFull(l, Plant(v, 3, r), [1], LeftOfTop, rest, 0);
    GrowNowhere(Plant(Plant(v, 3, r), 2, l), rest);
  }

  lemma GrowNowhere(v: Heap, p: seq<Token>)
    requires p != []
    ensures Grow(v, [], LeftOfTop, p) == None
  {
  }

  /** Rebuild, then flatten: the list comes back exactly if it ends with an operator or is a single token. */
  lemma FlattenInvertsExactly(p: seq<Token>)
    requires p != [] && NULL !in p && Rebuild(p).Some?
    ensures Flatten(Rebuild(p).value, 1) == p <==> IsOp(p[|p| - 1]) || |p| == 1
  {
    hide IsOp, TreeOfList, Rebuild, Flatten, Get;
    RebuildExactly(p);
    var t := TreeOfList(p).value;
    VectorHolds(t);
    FlattenHolds(t.Vector(), 1, t);
    if IsOp(t.token) {
      PartialOfRooted(t);
      ListedIsTokens(t);
    }
  }

  lemma PartialOfRooted(t: Tree)
    requires t.Rooted() && IsOp(t.token)
    ensures t.Partial()
  {
  }

  // ----- Height -----

  lemma {:induction false} Pow2Monotone(a: nat, b: nat)
    requires a <= b
    ensures Pow2(a) <= Pow2(b)
    decreases b
  {
    if a < b {
      Pow2Monotone(a, b - 1);
    }
  }

  lemma {:induction false} FloorLog2Unique(n: nat, k: nat)
    requires Pow2(k) <= n < Pow2(k + 1)
    ensures FloorLog2(n) == k
  {
    if k > 0 {
      FloorLog2Unique(n / 2, k - 1);
    }
  }

  /** The greatest position lies in the last level of the tree. */
  lemma {:induction false} MaxIndexLevel(i: Nth, t: Tree)
    requires t.Node?
    ensures InLevel(i, t.Height(), MaxIndex(i, t))
    decreases t
  {
    hide InLevel;
    var l, r := t.left, t.right;
    if l.Node? {
      MaxIndexLevel(2 * i, l);
    }
    if r.Node? {
      MaxIndexLevel(2 * i + 1, r);
    }
    if l.Node? && r.Node? {
      LevelOfParent(i, l.Height(), r.Height(), MaxIndex(2 * i, l), MaxIndex(2 * i + 1, r));
    } else if l.Node? {
      LevelOfOne(i, 2 * i, l.Height(), MaxIndex(2 * i, l));
    } else if r.Node? {
      LevelOfOne(i, 2 * i + 1, r.Height(), MaxIndex(2 * i + 1, r));
    } else {
      LevelOfLeaf(i);
    }
  }

  /** `n` is in the `h`-th level below position `i`. */
  predicate InLevel(i: Nth, h: nat, n: nat) {
    i * Pow2(h) <= n < (i + 1) * Pow2(h)
  }

  lemma LevelOfLeaf(i: Nth)
    ensures InLevel(i, 0, i)
  {
  }

  lemma LevelOfOne(i: Nth, child: Nth, h: nat, a: nat)
    requires InLevel(child, h, a) && (child == 2 * i || child == 2 * i + 1)
    ensures InLevel(i, h + 1, a) && a > i
  {
    var top := Pow2(h);
    MulMonotone(2 * i, 1, top);
    assert i * (2 * top) == 2 * i * top && (i + 1) * (2 * top) == 2 * i * top + 2 * top;
    assert (2 * i + 1) * top == 2 * i * top + top && (2 * i + 2) * top == 2 * i * top + 2 * top;
  }

  lemma LevelOfParent(i: Nth, hl: nat, hr: nat, a: nat, b: nat)
    requires InLevel(2 * i, hl, a) && InLevel(2 * i + 1, hr, b)
    ensures InLevel(i, 1 + Max(hl, hr), Max(a, b)) && Max(a, b) > i
  {
    var h := Max(hl, hr);
    LevelOfOne(i, 2 * i, hl, a);
    LevelOfOne(i, 2 * i + 1, hr, b);
    Pow2Monotone(hl, h);
    Pow2Monotone(hr, h);
    MulMonotone(2 * i + 1, Pow2(hl), Pow2(h));
    MulMonotone(i + 1, Pow2(hl + 1), Pow2(h + 1));
    MulMonotone(i + 1, Pow2(hr + 1), Pow2(h + 1));
  }

  lemma MulMonotone(a: nat, x: nat, y: nat)
    requires x <= y
    ensures a * x <= a * y
  {
  }

  /** The last entry of the vector is a token, not padding. */
  lemma {:induction false} MaxIndexOccupied(v: Heap, i: Nth, t: Tree)
    requires t.Node? && Holds(v, i, t) && NULL !in t.Tokens()
    ensures MaxIndex(i, t) >= 1 && Get(v, MaxIndex(i, t)) != NULL
    decreases t
  {
    hide Get;
    NoNullBelow(t);
    if t.left.Node? {
      MaxIndexOccupied(v, 2 * i, t.left);
    }
    if t.right.Node? {
      MaxIndexOccupied(v, 2 * i + 1, t.right);
    }
  }

  /** The logarithm of the vector's size is the height of the tree. */
  lemma HeightOfVector(t: Tree)
    requires t.Node?
    ensures |t.Vector()| == MaxIndex(1, t) >= 1
    ensures HeapHeight(t.Vector()) == t.Height()
  {
    PlantSize([], 1, t);
    MaxIndexLevel(1, t);
    FloorLog2Unique(|t.Vector()|, t.Height());
  }

  // ----- Expressions -----

  function TreeOf(e: Expr): Tree {
    match e
    case Lit(s) => Leaf(s)
    case Bin(op, l, r) => Node(OpName(op), TreeOf(l), TreeOf(r))
  }

  function Layout(e: Expr): Heap {
    TreeOf(e).Vector()
  }

  lemma {:induction false} TreeOfExpr(e: Expr)
    requires e.Proper()
    ensures TreeOf(e).Full() && TreeOf(e).Tokens() == e.Post() && TreeOf(e).Height() == e.Height()
  {
    hide IsOp, OpName, IsNumber;
    match e
    case Lit(s) =>
      NumberIsNotOp(s);
      assert [] + [] + [s] == [s];
    case Bin(op, l, r) =>
      TreeOfExpr(l);
      TreeOfExpr(r);
      NullIsNoOp();
  }

  lemma ExprIsRooted(e: Expr)
    requires e.Proper()
    ensures TreeOf(e).Partial() && TreeOf(e).Rooted() && NULL !in e.Post()
    ensures TreeOf(e).Listed() == e.Post()
  {
    hide IsOp, OpName;
    TreeOfExpr(e);
    FullIsPartial(TreeOf(e));
    PartialIsRooted(TreeOf(e));
    PartialTokens(TreeOf(e));
    ListedIsTokens(TreeOf(e));
  }

  /** `regenerate` on well-formed postfix stores the expression, never pops an empty stack, leaves no
      branch pending and never writes to an occupied position. */
  lemma RebuildPost(e: Expr)
    requires e.Proper()
    ensures Rebuild(e.Post()) == Some(Layout(e))
    ensures Holds(Layout(e), 1, TreeOf(e))
    ensures e.Bin? ==> GrowsCleanly([OpName(e.op)], [], RightOf(1), e.left.Post() + e.right.Post(), 0)
  {
    hide IsOp, OpName, Rebuild, Holds, GrowsCleanly;
    TreeOfExpr(e);
    ExprIsRooted(e);
    VectorHolds(TreeOf(e));
    var pending := RebuildRooted(TreeOf(e));
    if e.Bin? {
      TreeOfExpr(e.left);
      TreeOfExpr(e.right);
    }
  }

  lemma FlattenLayout(e: Expr)
    requires e.Proper()
    ensures Flatten(Layout(e), 1) == e.Post()
  {
    hide Flatten, Tree.Vector;
    TreeOfExpr(e);
    ExprIsRooted(e);
    VectorHolds(TreeOf(e));
    FlattenHolds(Layout(e), 1, TreeOf(e));
  }

  /** Rebuild, then flatten: the list comes back. */
  lemma FlattenInvertsRebuild(p: seq<Token>)
    requires WellFormed(p)
    ensures Rebuild(p).Some? && Flatten(Rebuild(p).value, 1) == p
  {
    hide Rebuild, Flatten;
    WellFormedIffPost(p);
    var e: Expr :| e.Proper() && e.Post() == p;
    RebuildPost(e);
    FlattenLayout(e);
  }

  /** Flatten, then rebuild: the vector comes back, and so does that of each branch. */
  lemma RebuildInvertsFlatten(t: Tree)
    requires t.Rooted()
    ensures Flatten(t.Vector(), 1) == t.Listed()
    ensures IsOp(t.token) ==> Rebuild(Flatten(t.Vector(), 1)) == Some(t.Vector())
    ensures Rebuild(Flatten(t.Vector(), 2)) == Some(OrNull(t.left).Vector())
    ensures Rebuild(Flatten(t.Vector(), 3)) == Some(OrNull(t.right).Vector())
  {
    hide IsOp, Rebuild, Flatten, Tree.Vector;
    VectorHolds(t);
    BranchTokens(t);
    FlattenHolds(t.Vector(), 1, t);
    FlattenHolds(t.Vector(), 2, t.left);
    FlattenHolds(t.Vector(), 3, t.right);
    if t.right.Full() {
      FullIsPartial(t.right);
    }
    RebuildBranch(t.left);
    RebuildBranch(t.right);
    if IsOp(t.token) {
      PartialOfRooted(t);
      RebuildBranch(t);
    }
  }

  /** The vector ends at the greatest occupied position, and the logarithm of its size is the height
      of the expression. */
  lemma HeightOfLayout(e: Expr)
    requires e.Proper()
    ensures |Layout(e)| == MaxIndex(1, TreeOf(e)) >= 1
    ensures Get(Layout(e), |Layout(e)|) != NULL
    ensures HeapHeight(Layout(e)) == e.Height()
  {
    hide Get, HeapHeight, Tree.Vector;
    TreeOfExpr(e);
    ExprIsRooted(e);
    HeightOfVector(TreeOf(e));
    VectorHolds(TreeOf(e));
    MaxIndexOccupied(Layout(e), 1, TreeOf(e));
  }
}
