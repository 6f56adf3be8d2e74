/** Which element trees the parser accepts, and which value each means. */
module XmlMeaning {
  import opened Results
  import opened Decimal
  import opened DecimalLaws
  import opened Text
  import opened TextLaws
  import opened XmlValues
  import opened XmlRoundTrip
  import Base64

  // ----- Structures -----

  /** The order of words in a dictionary. */
  lemma {:induction false} LessExactly(a: string, b: string)
    ensures Less(a, b) <==>
            exists k :: 0 <= k <= |a| && k < |b| && a[..k] == b[..k] && (k == |a| || a[k] < b[k])
  {
    forall k | 0 < k <= |a| && k < |b| && a[..k] == b[..k]
      ensures a[0] == b[0]
    {
      assert a[..k][0] == b[..k][0];
    }
    if b != [] && a != [] && a[0] == b[0] {
      LessExactly(a[1..], b[1..]);
      if Less(a, b) {
        var k :| 0 <= k <= |a[1..]| && k < |b[1..]| && a[1..][..k] == b[1..][..k]
                 && (k == |a[1..]| || a[1..][k] < b[1..][k]);
        assert a[..k + 1] == [a[0]] + a[1..][..k] && b[..k + 1] == [b[0]] + b[1..][..k];
      }
      forall k | 0 <= k <= |a| && k < |b| && a[..k] == b[..k] && (k == |a| || a[k] < b[k])
        ensures Less(a, b)
      {
        assert k > 0;
        assert a[1..][..k - 1] == a[..k][1..] && b[1..][..k - 1] == b[..k][1..];
      }
    } else {
      if Less(a, b) {
        assert a[..0] == b[..0];
      }
    }
  }

  lemma {:induction false} LessTransitive(a: string, b: string, c: string)
    requires Less(a, b) && Less(b, c)
    ensures Less(a, c)
  {
    if a != [] && b != [] && a[0] == b[0] && b[0] == c[0] {
      LessTransitive(a[1..], b[1..], c[1..]);
    }
  }

  lemma {:induction false} LessTotal(a: string, b: string)
    ensures Less(a, b) || a == b || Less(b, a)
  {
    if a != [] && b != [] && a[0] == b[0] {
      LessTotal(a[1..], b[1..]);
      assert a == [a[0]] + a[1..] && b == [b[0]] + b[1..];
    }
  }

  /** The value last written under a name. */
  function LastValue(ms: seq<Member>, name: string): Option<Value> {
    if ms == [] then None
    else if ms[|ms| - 1].name == name then Some(ms[|ms| - 1].value)
    else LastValue(ms[..|ms| - 1], name)
  }

  lemma LastValueFirst(m: Member, ms: seq<Member>, name: string)
    ensures LastValue([m] + ms, name) ==
            if LastValue(ms, name).Some? then LastValue(ms, name)
            else if m.name == name then Some(m.value) else None
    decreases |ms|
  {
    var all := [m] + ms;
    if ms == [] {
      assert all[..0] == [];
    } else {
      assert all[..|all| - 1] == [m] + ms[..|ms| - 1];
      LastValueFirst(m, ms[..|ms| - 1], name);
    }
  }

  lemma {:induction false} Unwritten(ms: seq<Member>, name: string)
    requires forall i :: 0 <= i < |ms| ==> ms[i].name != name
    ensures LastValue(ms, name) == None
  {
    if ms != [] {
      Unwritten(ms[..|ms| - 1], name);
    }
  }

  lemma {:induction false} Written(ms: seq<Member>, name: string)
    ensures LastValue(ms, name).Some? <==> exists i :: 0 <= i < |ms| && ms[i].name == name
  {
    if ms != [] {
      var front := ms[..|ms| - 1];
      Written(front, name);
      assert forall i :: 0 <= i < |front| ==> front[i] == ms[i];
      if ms[|ms| - 1].name != name && exists i :: 0 <= i < |ms| && ms[i].name == name {
        var i :| 0 <= i < |ms| && ms[i].name == name;
        assert front[i] == ms[i];
      }
    }
  }

  /** Insertion keeps the order, sets the one name and leaves every other as it was. */
  lemma {:induction false} InsertExactly(ms: seq<Member>, m: Member, name: string)
    requires Sorted(ms)
    ensures Sorted(Insert(ms, m))
    ensures LastValue(Insert(ms, m), name) == if name == m.name then Some(m.value) else LastValue(ms, name)
  {
    hide Less;
    InsertSorted(ms, m);
    if ms == [] {
      LastValueFirst(m, [], name);
      assert [m] + [] == [m];
    } else {
      var first, rest := ms[0], ms[1..];
      assert ms == [first] + rest;
      LastValueFirst(first, rest, name);
      if first.name == m.name {
        LastValueFirst(m, rest, name);
        LaterNamesDiffer(ms, m.name);
        Unwritten(rest, m.name);
      } else if Less(m.name, first.name) {
        LastValueFirst(m, ms, name);
        SmallerIsNew(ms, m.name);
        Unwritten(ms, m.name);
      } else {
        InsertExactly(rest, m, name);
        LastValueFirst(first, Insert(rest, m), name);
      }
    }
  }

  lemma LaterNamesDiffer(ms: seq<Member>, name: string)
    requires Sorted(ms) && ms != [] && ms[0].name == name
    ensures forall i :: 0 <= i < |ms[1..]| ==> ms[1..][i].name != name
  {
    hide Less;
    forall i | 0 <= i < |ms[1..]|
      ensures ms[1..][i].name != name
    {
      assert Less(ms[0].name, ms[i + 1].name);
      LessIsStrict(ms[0].name, ms[i + 1].name);
    }
  }

  lemma SmallerIsNew(ms: seq<Member>, name: string)
    requires Sorted(ms) && ms != [] && Less(name, ms[0].name)
    ensures forall i :: 0 <= i < |ms| ==> ms[i].name != name && Less(name, ms[i].name)
  {
    hide Less;
    forall i | 0 <= i < |ms|
      ensures ms[i].name != name && Less(name, ms[i].name)
    {
      if i > 0 {
        LessTransitive(name, ms[0].name, ms[i].name);
      }
      LessIsStrict(name, ms[i].name);
    }
  }

  lemma {:induction false} InsertSorted(ms: seq<Member>, m: Member)
    requires Sorted(ms)
    ensures Sorted(Insert(ms, m))
    ensures forall x :: x in Insert(ms, m) ==> x == m || x in ms
  {
    hide Less;
    if ms != [] && ms[0].name != m.name {
      if Less(m.name, ms[0].name) {
        SmallerIsNew(ms, m.name);
      } else {
        var rest := ms[1..];
        InsertSorted(rest, m);
        LessTotal(m.name, ms[0].name);
        var more := Insert(rest, m);
        forall j | 0 <= j < |more|
          ensures Less(ms[0].name, more[j].name)
        {
          assert more[j] in more;
          if more[j] != m {
            var i :| 0 <= i < |rest| && rest[i] == more[j];
            assert Less(ms[0].name, ms[i + 1].name);
          }
        }
      }
    }
  }

  /** Two sorted structures with the same values under all names are the same. */
  lemma {:induction false} SortedUnique(a: seq<Member>, b: seq<Member>)
    requires Sorted(a) && Sorted(b) && forall name :: LastValue(a, name) == LastValue(b, name)
    ensures a == b
  {
    hide Less;
    assert forall name :: LastValue([], name) == None;
    if a == [] || b == [] {
      var c := if a == [] then b else a;
      if c != [] {
        Written(c, c[0].name);
      }
    } else {
      FirstIsFound(a);
      FirstIsFound(b);
      SameFirst(a, b);
      var x, as', bs := a[0], a[1..], b[1..];
      assert a == [x] + as' && b == [x] + bs;
      LaterNamesDiffer(a, x.name);
      LaterNamesDiffer(b, x.name);
      forall name
        ensures LastValue(as', name) == LastValue(bs, name)
      {
        LastValueFirst(x, as', name);
        LastValueFirst(x, bs, name);
        if name == x.name {
          Unwritten(as', name);
          Unwritten(bs, name);
        }
      }
      SortedUnique(as', bs);
    }
  }

  lemma FirstIsFound(a: seq<Member>)
    requires Sorted(a) && a != []
    ensures LastValue(a, a[0].name) == Some(a[0].value)
  {
    hide Less;
    assert a == [a[0]] + a[1..];
    LaterNamesDiffer(a, a[0].name);
    Unwritten(a[1..], a[0].name);
    LastValueFirst(a[0], a[1..], a[0].name);
  }

  lemma SameFirst(a: seq<Member>, b: seq<Member>)
    requires Sorted(a) && Sorted(b) && a != [] && b != []
    requires forall name :: LastValue(a, name) == LastValue(b, name)
    ensures a[0] == b[0]
  {
    hide Less;
    FirstIsFound(a);
    FirstIsFound(b);
    NotSmaller(a, b);
    NotSmaller(b, a);
    LessTotal(a[0].name, b[0].name);
  }

  lemma NotSmaller(a: seq<Member>, b: seq<Member>)
    requires Sorted(a) && Sorted(b) && a != [] && b != []
    requires LastValue(b, a[0].name).Some?
    ensures !Less(a[0].name, b[0].name)
  {
    hide Less;
    Written(b, a[0].name);
    if Less(a[0].name, b[0].name) {
      SmallerIsNew(b, a[0].name);
    }
  }

  function InsertAll(ms: seq<Member>, written: seq<Member>): seq<Member>
    decreases |written|
  {
    if written == [] then ms else InsertAll(Insert(ms, written[0]), written[1..])
  }

  lemma {:induction false} InsertAllCollects(ms: seq<Member>, written: seq<Member>, name: string)
    requires Sorted(ms)
    ensures Sorted(InsertAll(ms, written))
    ensures LastValue(InsertAll(ms, written), name) ==
            if LastValue(written, name).Some? then LastValue(written, name) else LastValue(ms, name)
    decreases |written|
  {
    hide Sorted, Insert;
    if written != [] {
      var m, rest := written[0], written[1..];
      assert written == [m] + rest;
      InsertExactly(ms, m, name);
      InsertAllCollects(Insert(ms, m), rest, name);
      LastValueFirst(m, rest, name);
    }
  }

  /** `ms` is in order, and holds exactly the names that were written, each with its last value. */
  ghost predicate Collects(ms: seq<Member>, written: seq<Member>) {
    Sorted(ms) && forall name :: LastValue(ms, name) == LastValue(written, name)
  }

  lemma CollectsExactly(ms: seq<Member>, written: seq<Member>)
    ensures Collects(ms, written) <==> ms == InsertAll([], written)
  {
    hide Sorted, InsertAll, LastValue;
    var all := InsertAll([], written);
    EmptyIsSorted();
    forall name
      ensures Sorted(all) && LastValue(all, name) == LastValue(written, name)
    {
      InsertAllCollects([], written, name);
    }
    assert Sorted(all) by { InsertAllCollects([], written, ""); }
    if Collects(ms, written) {
      SortedUnique(ms, all);
    }
  }

  lemma EmptyIsSorted()
    ensures Sorted([]) && forall name :: LastValue([], name) == None
  {
  }

  // ----- What a document means -----

  const XML_SPACE := "\t\n\r "

  lemma SpaceTable(s: string)
    ensures IsXmlSpace(s) <==> forall c :: c in s ==> c in XML_SPACE
  {
    assert XML_SPACE[0] == '\t' && XML_SPACE[1] == '\n' && XML_SPACE[2] == '\r' && XML_SPACE[3] == ' ';
    if forall c :: c in s ==> c in XML_SPACE {
      forall i | 0 <= i < |s|
        ensures s[i] == '\t' || s[i] == '\n' || s[i] == '\r' || s[i] == ' '
      {
        assert s[i] in s;
      }
    }
  }

  /** `s` is the first text among the children. */
  ghost predicate TextOf(t: Node, s: string)
    requires t.Element?
  {
    exists i: nat ::
      && i < |t.children| && t.children[i] == TextNode(s)
      && forall j :: 0 <= j < i ==> !t.children[j].TextNode?
  }

  ghost predicate NoText(t: Node)
    requires t.Element?
  {
    forall i :: 0 <= i < |t.children| ==> !t.children[i].TextNode?
  }

  /** The text of an integer: white space, then a numeral of 32 bits. */
  ghost predicate IntText(s: string, i: int) {
    exists ws, numeral ::
      && s == ws + numeral && Blank(ws) && IsNumeral(numeral)
      && NumeralValue(numeral) == i && -2147483648 <= i <= 2147483647
  }

  /** The value element `n` means `v`. */
  ghost predicate Means(n: Node, v: Value)
    decreases Size(n), 1
  {
    && n.Element? && n.name == "value"
    && (|| (n.children == [] && v == String(""))
        || (v.String? && n.children == [TextNode(v.s)])
        || exists t :: LaidOut(n.children, [t]) && Size(t) < Size(n) && MeansType(t, v))
  }

  /** The element inside means `v`. */
  ghost predicate MeansType(t: Node, v: Value)
    decreases Size(t), 0
  {
    t.Element? &&
    match v
    case Nil => t.name == "nil"
    case Int(i) => (t.name == "i4" || t.name == "int") && exists s :: TextOf(t, s) && IntText(s, i)
    case Bool(b) => t.name == "boolean" && exists s :: TextOf(t, s) && s in if b then {"1", "true"} else {"0", "false"}
    case String(s) => (t.name == "string" || t.name == "") && (TextOf(t, s) || (NoText(t) && s == ""))
    case Binary(d) =>
      t.name == "base64" && ((NoText(t) && d == []) || exists s :: TextOf(t, s) && Base64.Decode(s) == Ok(d))
    case Array(items) =>
      t.name == "array" && exists data, es ::
        && LaidOut(t.children, [Element("data", data)]) && LaidOut(data, es)
        && SizeAll(es) < Size(t) && MeansItems(es, items)
    case Struct(members) =>
      t.name == "struct" && exists es, written: seq<Member> ::
        LaidOut(t.children, es) && SizeAll(es) < Size(t) && MeansMembers(es, written) && Collects(members, written)
  }

  ghost predicate MeansItems(es: seq<Node>, items: seq<Value>)
    decreases SizeAll(es), 2
  {
    |es| == |items| && forall i :: 0 <= i < |es| ==> Size(es[i]) <= SizeAll(es) && Means(es[i], items[i])
  }

  ghost predicate MeansMembers(es: seq<Node>, written: seq<Member>)
    decreases SizeAll(es), 3
  {
    |es| == |written| && forall i :: 0 <= i < |es| ==> Size(es[i]) <= SizeAll(es) && MeansMember(es[i], written[i])
  }

  /** A member has a name that is not blank as its first element and its value as its last. */
  ghost predicate MeansMember(e: Node, m: Member)
    decreases Size(e), 2
  {
    && e.Element? && e.name == "member"
    && exists mbr ::
         && LaidOut(e.children, mbr) && mbr != []
         && mbr[0] == Element("name", [TextNode(m.name)]) && !(forall c :: c in m.name ==> c in XML_SPACE)
         && Size(mbr[|mbr| - 1]) < Size(e) && Means(mbr[|mbr| - 1], m.value)
  }

  // ----- The parser gives exactly that -----

  lemma {:induction false} FirstTextExactly(ns: seq<Node>, s: string)
    ensures FirstText(ns) == Some(s) <==>
            exists i: nat :: i < |ns| && ns[i] == TextNode(s) && forall j :: 0 <= j < i ==> !ns[j].TextNode?
    ensures FirstText(ns) == None <==> forall i :: 0 <= i < |ns| ==> !ns[i].TextNode?
  {
    if ns != [] && !ns[0].TextNode? {
      FirstTextExactly(ns[1..], s);
      if FirstText(ns) == Some(s) {
        var i: nat :| i < |ns[1..]| && ns[1..][i] == TextNode(s) && forall j :: 0 <= j < i ==> !ns[1..][j].TextNode?;
        assert ns[i + 1] == TextNode(s);
        assert forall j :: 0 < j < i + 1 ==> ns[j] == ns[1..][j - 1];
      }
      forall i: nat | i < |ns| && ns[i] == TextNode(s) && forall j :: 0 <= j < i ==> !ns[j].TextNode?
        ensures FirstText(ns) == Some(s)
      {
        assert ns[1..][i - 1] == TextNode(s);
        assert forall j :: 0 <= j < i - 1 ==> ns[1..][j] == ns[j + 1];
      }
      assert forall j :: 0 <= j < |ns[1..]| ==> ns[1..][j] == ns[j + 1];
    }
  }

  lemma ChildTextExactly(t: Node, s: string)
    requires t.Element?
    ensures t.ChildText() == Some(s) <==> TextOf(t, s)
    ensures t.ChildText() == None <==> NoText(t)
  {
    hide FirstText;
    FirstTextExactly(t.children, s);
  }

  lemma IntTextMeans(s: string, i: int)
    ensures LexicalInt(SkipBlank(s)) == Some(i) <==> IntText(s, i)
  {
    hide LexicalInt, IsNumeral, NumeralValue, Blank;
    var numeral := SkipBlank(s);
    LexicalIntExactly(numeral, i);
    var ws := BlanksBefore(s);
    BlankIsAllBlank(ws);
    forall ws, numeral | s == ws + numeral && Blank(ws) && IsNumeral(numeral)
      ensures SkipBlank(s) == numeral
    {
      BlankIsAllBlank(ws);
      SkipBlankOver(ws, numeral);
      NumeralNotBlank(numeral);
    }
  }

  lemma NumeralNotBlank(s: string)
    requires IsNumeral(s)
    ensures SkipBlank(s) == s
  {
    assert s[0] == '+' || s[0] == '-' || s[0] in Magnitude(s);
    DigitTable(s[0]);
  }

  lemma EmptyDecodes()
    ensures Base64.Decode("") == Ok([])
  {
  }

  lemma ScalarExactly(t: Node, p: Parser, v: Value)
    requires t.Element? && !v.Array? && !v.Struct? && !p.ArrayParser? && !p.StructParser?
    requires Lookup(TYPES, t.name) == Some(p)
    ensures ParseType(p, t) == Ok(v) <==> MeansType(t, v)
  {
    hide Base64.Decode, LexicalInt, IntText, TextOf, NoText, Lookup;
    NameOfParser(t.name);
    EmptyDecodes();
    if t.ChildText().Some? {
      var s := t.ChildText().value;
      ChildTextExactly(t, s);
      if v.Int? {
        IntTextMeans(s, v.i);
      }
    }
    forall s
      ensures t.ChildText() == Some(s) <==> TextOf(t, s)
      ensures t.ChildText() == None <==> NoText(t)
    {
      ChildTextExactly(t, s);
    }
  }

  /** The names the parser knows. */
  lemma NameOfParser(name: string)
    ensures
      match Lookup(TYPES, name)
      case Some(IntParser) => name == "i4" || name == "int"
      case Some(BooleanParser) => name == "boolean"
      case Some(DoubleParser) => name == "double"
      case Some(StringParser) => name == "string" || name == ""
      case Some(NilParser) => name == "nil"
      case Some(Base64Parser) => name == "base64"
      case Some(DateTimeParser) => name == "dateTime.iso8601"
      case Some(ArrayParser) => name == "array"
      case Some(StructParser) => name == "struct"
      case None =>
        && name !in {"i4", "int", "boolean", "double", "string", "", "nil", "base64"}
        && name !in {"dateTime.iso8601", "array", "struct"}
  {
    hide Lookup;
    LookupEntry(TYPES, name);
    if Lookup(TYPES, name).Some? {
      var i :| 0 <= i < |TYPES| && TYPES[i] == (name, Lookup(TYPES, name).value);
    } else {
      assert TYPES[0].0 == "i4" && TYPES[1].0 == "int" && TYPES[2].0 == "boolean" && TYPES[3].0 == "double";
      assert TYPES[4].0 == "string" && TYPES[5].0 == "" && TYPES[6].0 == "nil" && TYPES[7].0 == "base64";
      assert TYPES[8].0 == "dateTime.iso8601" && TYPES[9].0 == "array" && TYPES[10].0 == "struct";
    }
  }

  lemma {:induction false} LookupEntry(types: seq<(string, Parser)>, name: string)
    ensures Lookup(types, name).None? <==> forall i :: 0 <= i < |types| ==> types[i].0 != name
    ensures Lookup(types, name).Some? ==> exists i :: 0 <= i < |types| && types[i] == (name, Lookup(types, name).value)
  {
    if types != [] && types[0].0 != name {
      LookupEntry(types[1..], name);
    }
  }

  lemma {:induction false} SizeOfMember(es: seq<Node>, i: nat)
    requires i < |es|
    ensures Size(es[i]) <= SizeAll(es)
  {
    if i > 0 {
      SizeOfMember(es[1..], i - 1);
    }
  }

  lemma RestSmaller(es: seq<Node>)
    requires es != []
    ensures SizeAll(es[1..]) < SizeAll(es)
  {
  }

  lemma ElementsSmaller(t: Node, es: seq<Node>)
    requires t.Element? && LaidOut(t.children, es)
    ensures SizeAll(es) < Size(t) && forall e :: e in es ==> e.Element?
  {
    LaidOutIsElements(t.children, es);
  }

  /** The parser accepts a value element exactly if it means something, and gives what it means. */
  lemma {:induction false} MeansExactly(n: Node, v: Value)
    ensures ParseValue(n) == Ok(v) <==> Means(n, v)
    decreases Size(n), 1
  {
    hide ParseType, MeansType, Lookup, LaidOut, ElementsOnly, FirstText;
    if n.Element? && n.name == "value" {
      if n.children == [] {
        NothingInside(n, v);
      } else if |n.children| == 1 && n.children[0].TextNode? {
        TextInside(n, v);
      } else {
        forall t | LaidOut(n.children, [t])
          ensures t.Element? && Size(t) < Size(n)
          ensures ParseValue(n) == Ok(v) <==> MeansType(t, v)
        {
          ElementsSmaller(n, [t]);
          SizeOne(t);
          assert t in [t];
          ParseInner(n, t);
          TypeExactly(t, v);
        }
        OneInside(n, v);
      }
    }
  }

  lemma NothingInside(n: Node, v: Value)
    requires n.Element? && n.name == "value" && n.children == []
    ensures ParseValue(n) == Ok(v) <==> v == String("")
    ensures forall t :: !LaidOut(n.children, [t])
  {
    LookupFirst(TYPES, 5);
  }

  lemma TextInside(n: Node, v: Value)
    requires n.Element? && n.name == "value" && |n.children| == 1 && n.children[0].TextNode?
    ensures ParseValue(n) == Ok(v) <==> v.String? && n.children == [TextNode(v.s)]
    ensures forall t :: !LaidOut(n.children, [t])
  {
    hide Lookup;
    LookupFirst(TYPES, 5);
    assert n.children == [n.children[0]];
    assert forall t: Node :: !LaidOut(n.children[1..], [t]);
  }

  lemma OneInside(n: Node, v: Value)
    requires n.Element? && n.name == "value" && n.children != []
    requires !(|n.children| == 1 && n.children[0].TextNode?)
    ensures ParseValue(n).Ok? ==> exists t :: LaidOut(n.children, [t])
  {
    hide ParseType, Lookup, LaidOut, ElementsOnly;
    if ParseValue(n).Ok? {
      var es := ElementsOnly(n.children).value;
      assert es == [es[0]];
      LaidOutIsElements(n.children, es);
    }
  }

  lemma {:induction false} TypeExactly(t: Node, v: Value)
    requires t.Element?
    ensures match Lookup(TYPES, t.name)
            case Some(p) => ParseType(p, t) == Ok(v) <==> MeansType(t, v)
            case None => !MeansType(t, v)
    decreases Size(t), 0
  {
    hide Lookup, ParseType, MeansType;
    NameOfParser(t.name);
    match Lookup(TYPES, t.name)
    case Some(ArrayParser) => ArrayExactly(t, v);
    case Some(StructParser) => StructExactly(t, v);
    case Some(p) =>
      if v.Array? || v.Struct? {
        OtherType(t, v, p);
      } else {
        ScalarExactly(t, p, v);
      }
    case None => UnknownType(t, v);
  }

  lemma UnknownType(t: Node, v: Value)
    requires t.Element? && Lookup(TYPES, t.name) == None
    ensures !MeansType(t, v)
  {
    hide Lookup;
    NameOfParser(t.name);
  }

  /** Only an array element gives an array, and only a structure element a structure. */
  lemma OtherType(t: Node, v: Value, p: Parser)
    requires t.Element? && Lookup(TYPES, t.name) == Some(p) && !p.ArrayParser? && !p.StructParser?
    requires v.Array? || v.Struct?
    ensures ParseType(p, t) != Ok(v) && !MeansType(t, v)
  {
    hide Lookup, LexicalInt, Base64.Decode;
    NameOfParser(t.name);
  }

  lemma {:induction false} ArrayExactly(t: Node, v: Value)
    requires t.Element? && t.name == "array"
    ensures ParseType(ArrayParser, t) == Ok(v) <==> MeansType(t, v)
    decreases Size(t), 0, 0
  {
    hide ParseItems, MeansItems, LaidOut, SizeAll, ElementsOnly;
    if v.Array? {
      forall data, es | LaidOut(t.children, [Element("data", data)]) && LaidOut(data, es)
        ensures SizeAll(es) < Size(t)
        ensures ParseType(ArrayParser, t) == Ok(v) <==> MeansItems(es, v.items)
      {
        var d := Element("data", data);
        ElementsSmaller(t, [d]);
        ElementsSmaller(d, es);
        SizeOne(d);
        LaidOutIsElements(t.children, [d]);
        LaidOutIsElements(data, es);
        assert SingleElement(t) == Ok(d);
        ItemsExactly(es, v.items);
      }
      if ParseType(ArrayParser, t) == Ok(v) {
        var d := SingleElement(t).value;
        var es := ElementsOnly(d.children).value;
        assert d == Element("data", d.children) && ElementsOnly(t.children).value == [d];
        LaidOutIsElements(t.children, [d]);
        LaidOutIsElements(d.children, es);
      }
    }
  }

  lemma {:induction false} StructExactly(t: Node, v: Value)
    requires t.Element? && t.name == "struct"
    ensures ParseType(StructParser, t) == Ok(v) <==> MeansType(t, v)
    decreases Size(t), 0, 0
  {
    hide ParseMembers, MeansMembers, Collects, InsertAll, LaidOut, SizeAll, ElementsOnly;
    if v.Struct? {
      forall es | LaidOut(t.children, es)
        ensures SizeAll(es) < Size(t)
        ensures ParseType(StructParser, t) == Ok(v) <==>
                exists written :: MeansMembers(es, written) && Collects(v.members, written)
      {
        ElementsSmaller(t, es);
        LaidOutIsElements(t.children, es);
        MembersExactly(es, [], v.members);
        forall written
          ensures Collects(v.members, written) <==> v.members == InsertAll([], written)
        {
          CollectsExactly(v.members, written);
        }
      }
      if ParseType(StructParser, t) == Ok(v) {
        var es := ElementsOnly(t.children).value;
        LaidOutIsElements(t.children, es);
      }
    }
  }

  lemma {:induction false} ItemsExactly(es: seq<Node>, items: seq<Value>)
    ensures ParseItems(es) == Ok(items) <==> MeansItems(es, items)
    decreases SizeAll(es), 2
  {
    hide ParseValue, Means, Size;
    if es != [] {
      SizeOfMember(es, 0);
      RestSmaller(es);
      if items != [] {
        MeansExactly(es[0], items[0]);
        ItemsExactly(es[1..], items[1..]);
        ItemsUnfold(es, items);
        assert items == [items[0]] + items[1..];
      }
    }
  }

  lemma ItemsUnfold(es: seq<Node>, items: seq<Value>)
    requires es != [] && items != []
    ensures MeansItems(es, items) <==> Means(es[0], items[0]) && MeansItems(es[1..], items[1..])
  {
    hide Means, Size, SizeAll;
    forall i: nat | i < |es|
      ensures Size(es[i]) <= SizeAll(es) && (i > 0 ==> Size(es[i]) <= SizeAll(es[1..]) && es[1..][i - 1] == es[i])
    {
      SizeOfMember(es, i);
      if i > 0 {
        SizeOfMember(es[1..], i - 1);
      }
    }
    if Means(es[0], items[0]) && MeansItems(es[1..], items[1..]) {
      forall i: nat | i < |es| && |es| == |items|
        ensures Means(es[i], items[i])
      {
        if i > 0 {
          assert es[1..][i - 1] == es[i] && items[1..][i - 1] == items[i];
        }
      }
    }
    if MeansItems(es, items) {
      forall i: nat | i < |es[1..]|
        ensures Means(es[1..][i], items[1..][i])
      {
        assert es[1..][i] == es[i + 1] && items[1..][i] == items[i + 1];
      }
    }
  }

  lemma {:induction false} MembersExactly(es: seq<Node>, sofar: seq<Member>, ms: seq<Member>)
    ensures ParseMembers(es, sofar) == Ok(ms) <==>
            exists written :: MeansMembers(es, written) && ms == InsertAll(sofar, written)
    decreases SizeAll(es), 3
  {
    hide ParseMember, MeansMember, Insert, Size;
    if es == [] {
      assert MeansMembers([], []) && InsertAll(sofar, []) == sofar;
    } else {
      SizeOfMember(es, 0);
      RestSmaller(es);
      forall m
        ensures ParseMember(es[0]) == Ok(m) <==> MeansMember(es[0], m)
      {
        MemberExactly(es[0], m);
      }
      if ParseMember(es[0]).Ok? {
        MembersExactly(es[1..], Insert(sofar, ParseMember(es[0]).value), ms);
      }
      MembersStep(es, sofar, ms);
    }
  }

  lemma MembersStep(es: seq<Node>, sofar: seq<Member>, ms: seq<Member>)
    requires es != []
    requires forall m :: ParseMember(es[0]) == Ok(m) <==> MeansMember(es[0], m)
    ensures (exists written :: MeansMembers(es, written) && ms == InsertAll(sofar, written)) <==>
            ParseMember(es[0]).Ok?
            && exists rest :: MeansMembers(es[1..], rest)
                              && ms == InsertAll(Insert(sofar, ParseMember(es[0]).value), rest)
  {
    hide ParseMember, MeansMember, Insert, Size, MeansMembers, InsertAll;
    if exists written :: MeansMembers(es, written) && ms == InsertAll(sofar, written) {
      var written :| MeansMembers(es, written) && ms == InsertAll(sofar, written);
      MembersUnfold(es, written);
      InsertFirst(sofar, written[0], written[1..]);
      assert written == [written[0]] + written[1..];
      assert ParseMember(es[0]) == Ok(written[0]);
    }
    if ParseMember(es[0]).Ok? {
      var m := ParseMember(es[0]).value;
      forall rest | MeansMembers(es[1..], rest) && ms == InsertAll(Insert(sofar, m), rest)
        ensures MeansMembers(es, [m] + rest) && ms == InsertAll(sofar, [m] + rest)
      {
        assert ([m] + rest)[1..] == rest;
        MembersUnfold(es, [m] + rest);
        InsertFirst(sofar, m, rest);
      }
    }
  }

  lemma InsertFirst(sofar: seq<Member>, m: Member, rest: seq<Member>)
    ensures InsertAll(sofar, [m] + rest) == InsertAll(Insert(sofar, m), rest)
  {
    hide Insert;
    assert ([m] + rest)[1..] == rest;
  }

  lemma MembersUnfold(es: seq<Node>, written: seq<Member>)
    requires es != []
    ensures MeansMembers(es, written) <==>
            written != [] && MeansMember(es[0], written[0]) && MeansMembers(es[1..], written[1..])
  {
    hide MeansMember, Size, SizeAll;
    forall i: nat | i < |es|
      ensures Size(es[i]) <= SizeAll(es) && (i > 0 ==> Size(es[i]) <= SizeAll(es[1..]) && es[1..][i - 1] == es[i])
    {
      SizeOfMember(es, i);
      if i > 0 {
        SizeOfMember(es[1..], i - 1);
      }
    }
    if written != [] && MeansMember(es[0], written[0]) && MeansMembers(es[1..], written[1..]) {
      forall i: nat | i < |es| && |es| == |written|
        ensures MeansMember(es[i], written[i])
      {
        if i > 0 {
          assert es[1..][i - 1] == es[i] && written[1..][i - 1] == written[i];
        }
      }
    }
    if MeansMembers(es, written) {
      forall i: nat | i < |es[1..]|
        ensures MeansMember(es[1..][i], written[1..][i])
      {
        assert es[1..][i] == es[i + 1] && written[1..][i] == written[i + 1];
      }
    }
  }

  lemma {:induction false} MemberExactly(e: Node, m: Member)
    ensures ParseMember(e) == Ok(m) <==> MeansMember(e, m)
    decreases Size(e), 2
  {
    hide ParseValue, Means, LaidOut, ElementsOnly, IsXmlSpace;
    if e.Element? && e.name == "member" {
      forall mbr: seq<Node> | LaidOut(e.children, mbr) && mbr != []
        ensures Size(mbr[|mbr| - 1]) < Size(e) && mbr[0].Element? && ElementsOnly(e.children) == Ok(mbr)
        ensures ParseValue(mbr[|mbr| - 1]) == Ok(m.value) <==> Means(mbr[|mbr| - 1], m.value)
      {
        ElementsSmaller(e, mbr);
        LaidOutIsElements(e.children, mbr);
        SizeOfMember(mbr, |mbr| - 1);
        assert mbr[0] in mbr;
        MeansExactly(mbr[|mbr| - 1], m.value);
      }
      if ElementsOnly(e.children).Ok? {
        var mbr := ElementsOnly(e.children).value;
        LaidOutIsElements(e.children, mbr);
        if mbr != [] {
          NameExactly(mbr[0], m.name);
        }
      }
    }
  }

  lemma NameExactly(n: Node, name: string)
    requires n.Element?
    ensures n.name == "name" && MemberName(n) == Ok(name) <==>
            n == Element("name", [TextNode(name)]) && !(forall c :: c in name ==> c in XML_SPACE)
  {
    hide IsXmlSpace, FirstText;
    SpaceTable(name);
    if |n.children| == 1 {
      assert n.children == [n.children[0]];
      FirstTextExactly(n.children, name);
      assert FirstText(n.children) == Some(name) <==> n.children[0] == TextNode(name);
    }
  }
}
