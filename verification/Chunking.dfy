/** `ExprTree`: cutting a tree into trees of bounded height, and the class itself. */
module Chunking {
  import opened Postfix
  import opened HeapTree

  /** The trees `chunk` returns: whole branches, and single roots that join them; a gap becomes a tree of "N". */
  function Cut(t: Tree, maxH: nat): (ps: seq<Tree>)
    ensures forall p :: p in ps ==> p.Node?
  {
    if t.Gap? then [Leaf(NULL)]
    else if t.Height() <= maxH then [t]
    else Cut(t.left, maxH) + Cut(t.right, maxH) + [Leaf(t.token)]
  }

  lemma CutLow(t: Tree, maxH: nat)
    requires t.Node? && t.Height() <= maxH
    ensures Cut(t, maxH) == [t]
  {
  }

  lemma CutHigh(t: Tree, maxH: nat)
    requires t.Node? && t.Height() > maxH
    ensures Cut(t, maxH) == Cut(OrNull(t.left), maxH) + Cut(OrNull(t.right), maxH) + [Leaf(t.token)]
    ensures OrNull(t.left).Height() < t.Height() && OrNull(t.right).Height() < t.Height()
  {
  }

  /** The chunks of an expression. */
  function Chunks(e: Expr, maxH: nat): seq<Tree> {
    Cut(TreeOf(e), maxH)
  }

  /** `toStack` of every tree of a list, one after another. */
  function FlattenAll(ps: seq<Tree>): seq<Token> {
    if ps == [] then [] else Flatten(ps[0].Vector(), 1) + FlattenAll(ps[1..])
  }

  lemma FlattenAllFirst(p: Tree, ps: seq<Tree>)
    ensures FlattenAll([p] + ps) == Flatten(p.Vector(), 1) + FlattenAll(ps)
  {
    hide Flatten, Tree.Vector;
    assert ([p] + ps)[1..] == ps;
  }

  lemma {:induction false} FlattenAllConcat(ps: seq<Tree>, qs: seq<Tree>)
    ensures FlattenAll(ps + qs) == FlattenAll(ps) + FlattenAll(qs)
  {
    hide Flatten, Tree.Vector, FlattenAll;
    if ps == [] {
      assert ps + qs == qs;
      assert FlattenAll([]) == [] by { FlattenAllNone(); }
    } else {
      var p, rest := ps[0], ps[1..];
      assert ps == [p] + rest && ps + qs == [p] + (rest + qs);
      FlattenAllConcat(rest, qs);
      FlattenAllFirst(p, rest);
      FlattenAllFirst(p, rest + qs);
    }
  }

  lemma FlattenAllNone()
    ensures FlattenAll([]) == []
  {
  }

  lemma FlattenOne(t: Tree)
    requires t.Node? && NULL !in t.Tokens()
    ensures FlattenAll([t]) == t.Listed()
  {
    hide Flatten, Tree.Vector, FlattenAll;
    VectorHolds(t);
    FlattenHolds(t.Vector(), 1, t);
    FlattenAllFirst(t, []);
    FlattenAllNone();
    assert [t] + [] == [t];
  }

  lemma FlattenLeaf(x: Token)
    ensures FlattenAll([Leaf(x)]) == [x]
  {
    hide IsOp;
    VectorHolds(Leaf(x));
    assert [Leaf(x)][1..] == [];
  }

  function WithoutNull(p: seq<Token>): seq<Token> {
    if p == [] then [] else (if p[0] == NULL then [] else [p[0]]) + WithoutNull(p[1..])
  }

  lemma {:induction false} WithoutNullConcat(p: seq<Token>, q: seq<Token>)
    ensures WithoutNull(p + q) == WithoutNull(p) + WithoutNull(q)
  {
    if p == [] {
      assert p + q == q;
    } else {
      assert (p + q)[1..] == p[1..] + q;
      WithoutNullConcat(p[1..], q);
    }
  }

  lemma {:induction false} NoNullToDrop(p: seq<Token>)
    requires NULL !in p
    ensures WithoutNull(p) == p
  {
    if p != [] {
      NoNullToDrop(p[1..]);
      assert p == [p[0]] + p[1..];
    }
  }

  /** The chunks of a tree that is cut, one after another. */
  lemma FlattenCut(t: Tree, maxH: nat)
    requires t.Node? && t.Height() > maxH
    ensures FlattenAll(Cut(t, maxH)) == FlattenAll(Cut(t.left, maxH)) + FlattenAll(Cut(t.right, maxH)) + [t.token]
  {
    hide FlattenAll;
    var ls, rs := Cut(t.left, maxH), Cut(t.right, maxH);
    FlattenAllConcat(ls, rs);
    FlattenAllConcat(ls + rs, [Leaf(t.token)]);
    FlattenLeaf(t.token);
  }

  lemma HighIsOperator(t: Tree)
    requires t.Full() && t.Height() > 0
    ensures IsOp(t.token)
  {
    hide IsOp;
  }

  /** Chunking a full tree conserves it: written one after another the chunks are its list. */
  lemma {:induction false} CutConserves(t: Tree, maxH: nat)
    requires t.Full()
    ensures FlattenAll(Cut(t, maxH)) == t.Tokens()
  {
    hide IsOp, FlattenAll;
    FullIsPartial(t);
    if t.Height() <= maxH {
      ListedIsTokens(t);
      PartialTokens(t);
      FlattenOne(t);
    } else {
      HighIsOperator(t);
      CutConserves(t.left, maxH);
      CutConserves(t.right, maxH);
      FlattenCut(t, maxH);
    }
  }

  /** Chunking a partial tree adds an "N" for each gap it is cut at, and nothing else. */
  lemma {:induction false} CutConservesPartial(t: Tree, maxH: nat)
    requires t.Partial()
    ensures WithoutNull(FlattenAll(Cut(t, maxH))) == t.Tokens()
    decreases t, 1
  {
    hide IsOp, FlattenAll;
    PartialTokens(t);
    if t.Gap? {
      FlattenLeaf(NULL);
    } else if t.Height() <= maxH {
      ListedIsTokens(t);
      FlattenOne(t);
      NoNullToDrop(t.Tokens());
    } else {
      CutConservesRoot(t, maxH);
    }
  }

  /** A tree whose root is no operator is conserved exactly when it is cut: uncut, `toStack` finds its root
      only. */
  lemma {:induction false} CutConservesRoot(t: Tree, maxH: nat)
    requires t.Node? && t.token != NULL && t.Branches() && t.Height() > maxH
    ensures WithoutNull(FlattenAll(Cut(t, maxH))) == t.Tokens()
    decreases t, 0
  {
    hide IsOp, FlattenAll;
    if t.right.Full() {
      FullIsPartial(t.right);
    }
    CutConservesPartial(t.left, maxH);
    CutConservesPartial(t.right, maxH);
    FlattenCut(t, maxH);
    var a, b := FlattenAll(Cut(t.left, maxH)), FlattenAll(Cut(t.right, maxH));
    WithoutNullConcat(a, b);
    WithoutNullConcat(a + b, [t.token]);
    NoNullToDrop([t.token]);
  }

  /** Chunking conserves an expression. */
  lemma ChunksConserve(e: Expr, maxH: nat)
    requires e.Proper()
    ensures FlattenAll(Chunks(e, maxH)) == e.Post()
  {
    TreeOfExpr(e);
    CutConserves(TreeOf(e), maxH);
  }

  /** A chunk of an expression that is not a single token is an expression again. */
  lemma {:induction false} ChunkIsExpr(e: Expr, maxH: nat, p: Tree) returns (x: Expr)
    requires e.Proper() && p in Chunks(e, maxH) && p.Height() > 0
    ensures x.Proper() && x.Bin? && p == TreeOf(x)
  {
    hide IsOp, OpName, IsNumber;
    assert e.Lit? ==> TreeOf(e).Height() == 0;
    if TreeOf(e).Height() <= maxH {
      x := e;
    } else if p in Chunks(e.left, maxH) {
      x := ChunkIsExpr(e.left, maxH, p);
    } else {
      x := ChunkIsExpr(e.right, maxH, p);
    }
  }

  /** No chunk is higher than asked for. */
  lemma {:induction false} ChunksAreLow(t: Tree, maxH: nat)
    ensures forall p :: p in Cut(t, maxH) ==> p.Vector() != [] && HeapHeight(p.Vector()) <= maxH
  {
    hide HeapHeight, Tree.Vector;
    forall p | p in Cut(t, maxH)
      ensures p.Vector() != [] && HeapHeight(p.Vector()) <= maxH
    {
      HeightOfVector(p);
      ChunkIsLow(t, maxH, p);
    }
  }

  lemma {:induction false} ChunkIsLow(t: Tree, maxH: nat, p: Tree)
    requires p in Cut(t, maxH)
    ensures p.Height() <= maxH
  {
    if t.Node? && t.Height() > maxH {
      if p in Cut(t.left, maxH) {
        ChunkIsLow(t.left, maxH, p);
      } else if p in Cut(t.right, maxH) {
        ChunkIsLow(t.right, maxH, p);
      }
    }
  }

  /** The nodes of a tree that are too high to be the root of a chunk. */
  function TooHigh(t: Tree, maxH: nat): nat {
    if t.Gap? || t.Height() <= maxH then 0 else 1 + TooHigh(t.left, maxH) + TooHigh(t.right, maxH)
  }

  /** Nothing is cut that need not be: each node that is too high is a chunk by itself, and cutting at it
      makes one part into two. */
  lemma {:induction false} CutIsCoarsest(t: Tree, maxH: nat)
    ensures |Cut(t, maxH)| == 1 + 2 * TooHigh(t, maxH)
  {
    if t.Node? && t.Height() > maxH {
      CutIsCoarsest(t.left, maxH);
      CutIsCoarsest(t.right, maxH);
    }
  }

  /** A tree at least that high has a chunk that is exactly that high. */
  lemma {:induction false} SomeChunkIsFull(t: Tree, maxH: nat) returns (i: nat)
    requires t.Height() >= maxH
    ensures i < |Cut(t, maxH)| && Cut(t, maxH)[i].Height() == maxH
    ensures HeapHeight(Cut(t, maxH)[i].Vector()) == maxH
  {
    hide HeapHeight, Tree.Vector;
    var l := Cut(t.left, maxH);
    if t.Height() == maxH {
      i := 0;
    } else if t.left.Height() >= maxH {
      i := SomeChunkIsFull(t.left, maxH);
    } else {
      i := SomeChunkIsFull(t.right, maxH);
      i := |l| + i;
    }
    HeightOfVector(Cut(t, maxH)[i]);
  }

  // ----- The class -----

  class ExprTree {
    var values: Heap

    /** `ExprTree(const T_stack&)`.  The C++ code pops an empty stack where `Rebuild` is undefined. */
    constructor FromStack(p: seq<Token>)
      requires Rebuild(p).Some?
      ensures values == Rebuild(p).value
    {
      values := [];
      new;
      var defined := Regenerate(p);
    }

    constructor Copy(p: ExprTree)
      ensures values == p.values
    {
      values := p.values;
    }

    /** `ExprTree(const string&)`: one token. */
    constructor Single(a: Token)
      ensures values == [a]
    {
      values := [];
      new;
      Add(1, a);
    }

    /** Write at a position, filling with "N" up to it. */
    method Add(nth: Nth, x: Token)
      modifies this
      ensures values == Put(old(values), nth, x)
    {
      if nth > |values| {
        while |values| < nth - 1
          invariant old(|values|) <= |values| <= nth - 1
          invariant values == old(values) + seq(|values| - old(|values|), _ => NULL)
        {
          values := values + [NULL];
        }
        values := values + [x];
      } else {
        values := values[nth - 1 := x];
      }
    }

    /** Defined on a tree that is not empty: the logarithm of 0 does not fit an `int`. */
    function Height(): nat
      requires values != []
      reads this
    {
      HeapHeight(values)
    }

    /** Build the tree of a postfix list, read from its end.  The answer is whether the C++ code stays
        defined: false when it would pop an empty stack. */
    method Regenerate(p: seq<Token>) returns (defined: bool)
      modifies this
      ensures defined <==> Rebuild(p).Some?
      ensures defined ==> values == Rebuild(p).value
    {
      hide IsOp, Get, Put;
      values := [];
      if p == [] {
        return true;
      }
      var parent: int := 1;
      var emptyBranch: seq<Nth> := [];
      var wasOp := true;
      var top := |p| - 1;
      Add(parent, p[top]);
      while top > 0
        invariant 0 <= top < |p|
        invariant wasOp ==> parent >= 1
        invariant Rebuild(p) == Grow(values, emptyBranch, if wasOp then RightOf(parent) else LeftOfTop, p[..top])
      {
        top := top - 1;
        var x := p[top];
        assert p[..top + 1][..top] == p[..top];
        if wasOp {
          Add(2 * parent + 1, x);
          emptyBranch := emptyBranch + [parent];
          if IsOp(x) {
            parent := 2 * parent + 1;
          } else {
            wasOp := false;
          }
        } else {
          if emptyBranch == [] {
            return false;
          }
          parent := emptyBranch[|emptyBranch| - 1];
          emptyBranch := emptyBranch[..|emptyBranch| - 1];
          Add(2 * parent, x);
          if IsOp(x) {
            parent := 2 * parent;
            wasOp := true;
          } else {
            parent := (parent - parent % 2) / 2;
          }
        }
      }
      assert p[..0] == [];
      return true;
    }

    /** The subtree at a position in post order. */
    method ToStack(nth: Nth) returns (stack: seq<Token>)
      ensures stack == Flatten(values, nth)
      decreases if nth > |values| then 0 else |values| - nth + 1
    {
      hide IsOp, Get;
      stack := [];
      if IsOp(Get(values, nth)) && Get(values, 2 * nth) != NULL {
        NullIsNotOp(values, nth);
        var leftStack := ToStack(2 * nth);
        stack := MoveAll(stack, leftStack);
        assert stack == Flatten(values, 2 * nth);
      }
      if IsOp(Get(values, nth)) && Get(values, 2 * nth + 1) != NULL {
        NullIsNotOp(values, nth);
        var rightStack := ToStack(2 * nth + 1);
        stack := MoveAll(stack, rightStack);
      }
      stack := stack + [Get(values, nth)];
    }

    /** Cut the tree into trees of bounded height, in postfix order.  `t` is what the vector holds: a tree
        `Regenerate` builds, or the single "N" of a missing branch.  The recursion ends because both branches
        are lower. */
    method Chunk(maxH: nat, ghost t: Tree) returns (vec: seq<ExprTree>)
      requires t.Rooted() || t == Leaf(NULL)
      requires values == t.Vector()
      ensures |vec| == |Cut(t, maxH)|
      ensures forall i :: 0 <= i < |vec| ==> fresh(vec[i]) && vec[i].values == Cut(t, maxH)[i].Vector()
      decreases HeapHeight(values)
    {
      hide IsOp, Flatten, Rebuild, HeapHeight, Put, Get, Tree.Vector, Tree.Rooted, Tree.Height, Cut, OrNull;
      assert t.Node? by { if t.Rooted() { RootedIsNode(t); } }
      HeightOfVector(t);
      if Height() <= maxH {
        CutLow(t, maxH);
        var copy := new ExprTree.Copy(this);
        vec := [copy];
      } else {
        CutHigh(t, maxH);
        assert t.Rooted() by { LeafIsLow(NULL); }
        RebuildInvertsFlatten(t);
        ghost var l, r := OrNull(t.left), OrNull(t.right);
        BranchesRooted(t);
        HeightOfVector(l);
        HeightOfVector(r);
        var leftStack := ToStack(2);
        var e1 := new ExprTree.FromStack(leftStack);
        var l1 := e1.Chunk(maxH, l);
        var rightStack := ToStack(3);
        var e2 := new ExprTree.FromStack(rightStack);
        var l2 := e2.Chunk(maxH, r);
        vec := MoveAll([], l1);
        vec := MoveAll(vec, l2);
        RootOfVector(t);
        var root := new ExprTree.Single(Get(values, 1));
        VectorOfLeaf(t.token);
        vec := vec + [root];
      }
    }
  }

  lemma RootedIsNode(t: Tree)
    requires t.Rooted()
    ensures t.Node?
  {
  }

  lemma BranchesRooted(t: Tree)
    requires t.Rooted()
    ensures OrNull(t.left).Rooted() || OrNull(t.left) == Leaf(NULL)
    ensures OrNull(t.right).Rooted() || OrNull(t.right) == Leaf(NULL)
    ensures OrNull(t.left).Node? && OrNull(t.right).Node?
  {
    hide IsOp;
    if t.right.Full() {
      FullIsPartial(t.right);
    }
    if t.left.Node? {
      PartialIsRooted(t.left);
    }
    if t.right.Node? {
      PartialIsRooted(t.right);
    }
  }

  lemma RootOfVector(t: Tree)
    requires t.Node?
    ensures Get(t.Vector(), 1) == t.token
  {
    hide Tree.Vector, Get;
    VectorHolds(t);
  }

  lemma LeafIsLow(x: Token)
    ensures Leaf(x).Height() == 0
  {
  }

  lemma VectorOfLeaf(x: Token)
    ensures Leaf(x).Vector() == [x]
  {
    PutRoot(x);
    assert Plant([x], 3, Gap) == [x] && Plant([x], 2, Gap) == [x];
  }

  /** Take the elements off the front of one list and put them at the end of another. */
  method MoveAll<T>(to: seq<T>, from: seq<T>) returns (moved: seq<T>)
    ensures moved == to + from
  {
    moved := to;
    var left := from;
    while left != []
      invariant moved + left == to + from
      decreases |left|
    {
      moved := moved + [left[0]];
      left := left[1..];
    }
  }
}
