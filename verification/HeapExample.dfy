/** One tree and its vector, position by position. */
module HeapExample {
  import opened Results
  import opened Postfix
  import opened HeapTree

  /** The vector of a small tree, with the places that hold nothing. */
  lemma SmallVector(x: Token, y: Token, z: Token)
    requires IsNumber(x) && IsNumber(y) && IsNumber(z)
    ensures Rebuild([x, y, z, "MULTIPLY", "ADD"]) == Some(["ADD", x, "MULTIPLY", "N", "N", y, z])
  {
    hide IsNumber, OpName, Put, Plant, Rebuild, Expr.Post, Expr.Proper, Layout;
    var e := Bin(Add, Lit(x), Bin(Multiply, Lit(y), Lit(z)));
    SmallPost(x, y, z);
    RebuildPost(e);
    SmallLayout(x, y, z);
  }

  lemma SmallPost(x: Token, y: Token, z: Token)
    ensures
      var e := Bin(Add, Lit(x), Bin(Multiply, Lit(y), Lit(z)));
      && e.Post() == [x, y, z, "MULTIPLY", "ADD"]
      && (e.Proper() <==> IsNumber(x) && IsNumber(y) && IsNumber(z))
  {
    hide IsNumber;
    var r := Bin(Multiply, Lit(y), Lit(z));
    assert r.Post() == [y, z, "MULTIPLY"];
    assert r.Proper() <==> Lit(y).Proper() && Lit(z).Proper();
  }

  lemma SmallLayout(x: Token, y: Token, z: Token)
    ensures Layout(Bin(Add, Lit(x), Bin(Multiply, Lit(y), Lit(z)))) == ["ADD", x, "MULTIPLY", "N", "N", y, z]
  {
    hide Put;
    var v1: Heap := ["ADD"];
    var v2: Heap := ["ADD", "N", "MULTIPLY"];
    var v3: Heap := ["ADD", "N", "MULTIPLY", "N", "N", "N", z];
    var v4: Heap := ["ADD", "N", "MULTIPLY", "N", "N", y, z];
    SmallPuts(x, y, z);
    PlantLeaf(v2, 7, z);
    PlantLeaf(v3, 6, y);
    PlantLeaf(v4, 2, x);
    var r := Node("MULTIPLY", Leaf(y), Leaf(z));
    assert Plant(v1, 3, r) == v4;
    var e := Bin(Add, Lit(x), Bin(Multiply, Lit(y), Lit(z)));
    assert TreeOf(e.right) == r && TreeOf(e) == Node("ADD", Leaf(x), r);
  }

  lemma SmallPuts(x: Token, y: Token, z: Token)
    ensures Put([], 1, "ADD") == ["ADD"] && Put(["ADD"], 3, "MULTIPLY") == ["ADD", "N", "MULTIPLY"]
    ensures Put(["ADD", "N", "MULTIPLY"], 7, z) == ["ADD", "N", "MULTIPLY", "N", "N", "N", z]
    ensures Put(["ADD", "N", "MULTIPLY", "N", "N", "N", z], 6, y) == ["ADD", "N", "MULTIPLY", "N", "N", y, z]
    ensures Put(["ADD", "N", "MULTIPLY", "N", "N", y, z], 2, x) == ["ADD", x, "MULTIPLY", "N", "N", y, z]
  {
  }

  lemma PlantLeaf(v: Heap, i: Nth, x: Token)
    ensures Plant(v, i, Leaf(x)) == Put(v, i, x)
  {
    hide Put;
    var w := Put(v, i, x);
    assert Plant(w, 2 * i + 1, Gap) == w && Plant(w, 2 * i, Gap) == w;
  }
}
