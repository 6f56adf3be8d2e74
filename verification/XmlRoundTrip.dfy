/** A printed value is parsed back to itself, also after the document has been laid out afresh. */
module XmlRoundTrip {
  import opened Results
  import opened Decimal
  import opened Text
  import opened XmlValues
  import Base64
  import Base64Laws

  // ----- Values -----

  /** What the C++ types guarantee: integers are of type `int`, the members of a structure are in the
      order of their names, each name once. */
  ghost predicate Stored(v: Value) {
    match v
    case Int(i) => FitsInt(i)
    case Array(items) => forall x :: x in items ==> Stored(x)
    case Struct(members) => Sorted(members) && forall m :: m in members ==> Stored(m.value)
    case _ => true
  }

  /** No member of a structure has a name of nothing but white space. */
  ghost predicate NamesNotBlank(v: Value) {
    match v
    case Array(items) => forall x :: x in items ==> NamesNotBlank(x)
    case Struct(members) => forall m :: m in members ==> !IsXmlSpace(m.name) && NamesNotBlank(m.value)
    case _ => true
  }

  // ----- Layout -----

  /** `ns` is the elements `es` with white space and comments before, between and after them. */
  predicate LaidOut(ns: seq<Node>, es: seq<Node>) {
    if ns == [] then
      es == []
    else
      match ns[0]
      case TextNode(t) => IsXmlSpace(t) && LaidOut(ns[1..], es)
      case Comment(_) => LaidOut(ns[1..], es)
      case Element(_, _) => es != [] && es[0] == ns[0] && LaidOut(ns[1..], es[1..])
  }

  /** The one text of an element; an empty text may be missing. */
  predicate HasText(children: seq<Node>, s: string) {
    children == [TextNode(s)] || (s == "" && children == [])
  }

  /** `n` is a document for `v`: what the visitor prints, laid out in any way. */
  ghost predicate Spells(v: Value, n: Node)
    decreases v, 1
  {
    n.Element? && n.name == "value" && exists t :: LaidOut(n.children, [t]) && SpellsType(v, t)
  }

  ghost predicate SpellsType(v: Value, t: Node)
    decreases v, 0
  {
    t.Element? &&
    match v
    case Nil => t.name == "nil"
    case Int(i) => t.name == "i4" && t.children == [TextNode(IntToString(i))]
    case Bool(b) => t.name == "boolean" && t.children == [TextNode(if b then "1" else "0")]
    case String(s) => t.name == "string" && HasText(t.children, s)
    case Binary(d) => t.name == "base64" && HasText(t.children, Base64.Encode(d))
    case Array(items) => t.name == "array" && SpellsArray(items, t)
    case Struct(members) => t.name == "struct" && SpellsStruct(members, t)
  }

  ghost predicate SpellsArray(items: seq<Value>, t: Node)
    requires t.Element?
    decreases items, 2
  {
    exists data, es ::
      && LaidOut(t.children, [Element("data", data)]) && LaidOut(data, es)
      && SpellItems(items, es)
  }

  ghost predicate SpellItems(items: seq<Value>, es: seq<Node>)
    decreases items, 1
  {
    |es| == |items| && forall i :: 0 <= i < |items| ==> Spells(items[i], es[i])
  }

  ghost predicate SpellsStruct(members: seq<Member>, t: Node)
    requires t.Element?
    decreases members, 4
  {
    exists es :: LaidOut(t.children, es) && SpellMembers(members, es)
  }

  ghost predicate SpellMembers(members: seq<Member>, es: seq<Node>)
    decreases members, 3
  {
    |es| == |members| && forall i :: 0 <= i < |members| ==> SpellsMember(members[i], es[i])
  }

  ghost predicate SpellsMember(m: Member, e: Node)
    decreases m, 2
  {
    && e.Element? && e.name == "member"
    && exists value ::
         LaidOut(e.children, [Element("name", [TextNode(m.name)]), value]) && Spells(m.value, value)
  }

  lemma {:induction false} LaidOutIsElements(ns: seq<Node>, es: seq<Node>)
    ensures LaidOut(ns, es) <==> ElementsOnly(ns) == Ok(es)
    decreases |ns|
  {
    hide IsXmlSpace;
    if ns != [] {
      match ns[0]
      case TextNode(_) => LaidOutIsElements(ns[1..], es);
      case Comment(_) => LaidOutIsElements(ns[1..], es);
      case Element(_, _) =>
        if es != [] {
          LaidOutIsElements(ns[1..], es[1..]);
          assert es == [es[0]] + es[1..];
        }
    }
  }

  // ----- The printed tree is one of the documents -----

  lemma {:induction false} PlainLayout(es: seq<Node>)
    requires forall e :: e in es ==> e.Element?
    ensures LaidOut(es, es)
    decreases |es|
  {
    if es != [] {
      assert es[0] in es;
      PlainLayout(es[1..]);
    }
  }

  lemma {:induction false} RenderItemsAt(vs: seq<Value>)
    ensures |RenderItems(vs)| == |vs|
    ensures forall i :: 0 <= i < |vs| ==> RenderItems(vs)[i] == RenderValue(vs[i])
    decreases |vs|
  {
    hide RenderValue;
    if vs != [] {
      RenderItemsAt(vs[1..]);
    }
  }

  lemma {:induction false} RenderMembersAt(ms: seq<Member>)
    ensures |RenderMembers(ms)| == |ms|
    ensures forall i :: 0 <= i < |ms| ==> RenderMembers(ms)[i] == RenderMember(ms[i])
    decreases |ms|
  {
    hide RenderMember;
    if ms != [] {
      RenderMembersAt(ms[1..]);
    }
  }

  /** The visitor's tree is a document for the value. */
  lemma {:induction false} RenderSpells(v: Value)
    ensures Spells(v, RenderValue(v))
    decreases v, 1
  {
    var t := RenderType(v);
    if v.Array? {
      RenderSpellItems(v.items);
      RenderItemsAt(v.items);
      PlainLayout(RenderItems(v.items));
      PlainLayout([Element("data", RenderItems(v.items))]);
    } else if v.Struct? {
      RenderSpellMembers(v.members);
      RenderMembersAt(v.members);
      PlainLayout(RenderMembers(v.members));
    }
    assert SpellsType(v, t);
    PlainLayout([t]);
  }

  lemma {:induction false} RenderSpellItems(items: seq<Value>)
    ensures SpellItems(items, RenderItems(items))
    decreases items, 2
  {
    hide RenderValue, Spells;
    RenderItemsAt(items);
    forall i | 0 <= i < |items|
      ensures Spells(items[i], RenderItems(items)[i])
    {
      RenderSpells(items[i]);
    }
  }

  lemma {:induction false} RenderSpellMembers(members: seq<Member>)
    ensures SpellMembers(members, RenderMembers(members))
    decreases members, 2
  {
    hide RenderValue, Spells;
    RenderMembersAt(members);
    forall i | 0 <= i < |members|
      ensures SpellsMember(members[i], RenderMembers(members)[i])
    {
      var m := members[i];
      RenderSpells(m.value);
      PlainLayout([Element("name", [TextNode(m.name)]), RenderValue(m.value)]);
    }
  }

  // ----- Parsing a document -----

  lemma ParseInner(n: Node, t: Node)
    requires n.Element? && n.name == "value" && LaidOut(n.children, [t]) && t.Element?
    ensures ParseValue(n) ==
            match Lookup(TYPES, t.name)
            case None => Err(Violation)
            case Some(p) => ParseType(p, t)
  {
    hide Lookup, ParseType;
    LaidOutIsElements(n.children, [t]);
    if |n.children| == 1 {
      assert n.children[1..] == [];
    }
    InnerSmaller(n);
    assert ValueNode(n) == Ok((Some(t), t.name));
    SizeOne(t);
    assert t != n;
  }

  lemma {:induction false} LookupFirst(types: seq<(string, Parser)>, k: nat)
    requires k < |types| && forall i :: 0 <= i < k ==> types[i].0 != types[k].0
    ensures Lookup(types, types[k].0) == Some(types[k].1)
    decreases k
  {
    if k > 0 {
      LookupFirst(types[1..], k - 1);
    }
  }

  /** The entries for the names the visitor writes are the first with those names. */
  lemma TableEntries()
    ensures Lookup(TYPES, "nil") == Some(NilParser) && Lookup(TYPES, "i4") == Some(IntParser)
    ensures Lookup(TYPES, "boolean") == Some(BooleanParser) && Lookup(TYPES, "string") == Some(StringParser)
    ensures Lookup(TYPES, "base64") == Some(Base64Parser) && Lookup(TYPES, "array") == Some(ArrayParser)
    ensures Lookup(TYPES, "struct") == Some(StructParser)
  {
    hide Lookup;
    LookupFirst(TYPES, 0);
    LookupFirst(TYPES, 2);
    LookupFirst(TYPES, 4);
    LookupFirst(TYPES, 6);
    LookupFirst(TYPES, 7);
    LookupFirst(TYPES, 9);
    LookupFirst(TYPES, 10);
  }

  /** The parser gives back exactly the value, or fails if a member's name is blank. */
  ghost predicate Reads(r: Result<Value, XmlError>, v: Value) {
    if NamesNotBlank(v) then r == Ok(v) else r.Err?
  }

  ghost predicate ReadsItems(r: Result<seq<Value>, XmlError>, items: seq<Value>) {
    if forall x :: x in items ==> NamesNotBlank(x) then r == Ok(items) else r.Err?
  }

  ghost predicate NamesOk(members: seq<Member>) {
    forall m :: m in members ==> !IsXmlSpace(m.name) && NamesNotBlank(m.value)
  }

  /** Whatever the layout, the document of a value parses to that value exactly if no member has a blank
      name; otherwise the parser reports an error. */
  lemma {:induction false} DocumentParses(v: Value, n: Node)
    requires Stored(v) && Spells(v, n)
    ensures Reads(ParseValue(n), v)
    decreases v, 3
  {
    hide Lookup, Reads, ParseType, Stored;
    var t :| LaidOut(n.children, [t]) && SpellsType(v, t);
    ParseInner(n, t);
    TableEntries();
    match v
    case Array(items) => ArrayParses(v, t);
    case Struct(members) => StructParses(v, t);
    case _ => ScalarParses(v, t);
  }

  function ParserOf(v: Value): Parser {
    match v
    case Nil => NilParser
    case Int(_) => IntParser
    case Bool(_) => BooleanParser
    case String(_) => StringParser
    case Binary(_) => Base64Parser
    case Array(_) => ArrayParser
    case Struct(_) => StructParser
  }

  lemma ScalarParses(v: Value, t: Node)
    requires Stored(v) && SpellsType(v, t) && !v.Array? && !v.Struct?
    ensures Reads(ParseType(ParserOf(v), t), v)
  {
    hide LexicalInt, IntToString, Base64.Decode, Base64.Encode;
    match v
    case Int(i) =>
      IntTextRead(i);
    case Binary(d) =>
      Base64Laws.Base64RoundTrip(d);
    case _ =>
  }

  lemma IntTextRead(i: int)
    requires FitsInt(i)
    ensures LexicalInt(SkipBlank(IntToString(i))) == Some(i)
  {
    IntRoundTrip(i);
    assert !IsBlank(IntToString(i)[0]);
  }

  lemma {:induction false} ArrayParses(v: Value, t: Node)
    requires v.Array? && Stored(v) && SpellsType(v, t)
    ensures Reads(ParseType(ArrayParser, t), v)
    decreases v, 2
  {
    var data, es :| LaidOut(t.children, [Element("data", data)]) && LaidOut(data, es) && SpellItems(v.items, es);
    LaidOutIsElements(t.children, [Element("data", data)]);
    LaidOutIsElements(data, es);
    ItemsParse(v.items, es);
    hide Spells, ParseItems, Stored;
    assert SingleElement(t) == Ok(Element("data", data));
  }

  lemma {:induction false} ItemsParse(items: seq<Value>, es: seq<Node>)
    requires (forall x :: x in items ==> Stored(x)) && SpellItems(items, es)
    ensures ReadsItems(ParseItems(es), items)
    decreases items, 4
  {
    hide Spells, Stored, NamesNotBlank, ParseValue;
    if items != [] {
      assert items[0] in items && forall x :: x in items[1..] ==> x in items;
      DocumentParses(items[0], es[0]);
      ItemsParse(items[1..], es[1..]);
      assert items == [items[0]] + items[1..];
    }
  }

  lemma {:induction false} StructParses(v: Value, t: Node)
    requires v.Struct? && Stored(v) && SpellsType(v, t)
    ensures Reads(ParseType(StructParser, t), v)
    decreases v, 2
  {
    hide Spells, SpellsMember, ParseMembers, IsXmlSpace;
    var es :| LaidOut(t.children, es) && SpellMembers(v.members, es);
    LaidOutIsElements(t.children, es);
    assert [] + v.members == v.members;
    MembersParse([], v.members, es);
  }

  lemma {:induction false} MembersParse(sofar: seq<Member>, members: seq<Member>, es: seq<Node>)
    requires Sorted(sofar + members) && (forall m :: m in members ==> Stored(m.value)) && SpellMembers(members, es)
    ensures if NamesOk(members) then ParseMembers(es, sofar) == Ok(sofar + members) else ParseMembers(es, sofar).Err?
    decreases members, 4
  {
    hide Spells, SpellsMember, Stored, NamesNotBlank, ParseMember, Insert, Less, IsXmlSpace;
    if members == [] {
      assert sofar + members == sofar;
    } else {
      var m, rest := members[0], members[1..];
      assert m in members && forall x :: x in rest ==> x in members;
      assert members == [m] + rest;
      MemberParses(m, es[0]);
      forall i | 0 <= i < |sofar|
        ensures Less(sofar[i].name, m.name)
      {
        assert (sofar + members)[i] == sofar[i] && (sofar + members)[|sofar|] == m;
      }
      InsertLast(sofar, m);
      assert sofar + members == sofar + [m] + rest;
      MembersParse(sofar + [m], rest, es[1..]);
    }
  }

  lemma {:induction false} MemberParses(m: Member, e: Node)
    requires Stored(m.value) && SpellsMember(m, e)
    ensures if !IsXmlSpace(m.name) && NamesNotBlank(m.value) then ParseMember(e) == Ok(m) else ParseMember(e).Err?
    decreases m, 3
  {
    var name := Element("name", [TextNode(m.name)]);
    var value :| LaidOut(e.children, [name, value]) && Spells(m.value, value);
    LaidOutIsElements(e.children, [name, value]);
    DocumentParses(m.value, value);
    hide Spells, ParseValue, Stored, NamesNotBlank, IsXmlSpace;
    assert MemberName(name) == if IsXmlSpace(m.name) then Err(Violation) else Ok(m.name);
  }

  /** The tree the visitor prints parses to the value that was printed, if and only if no member of a
      structure in it has a blank name. */
  lemma ValueRoundTrip(v: Value)
    requires Stored(v)
    ensures ParseValue(RenderValue(v)) == Ok(v) <==> NamesNotBlank(v)
    ensures !NamesNotBlank(v) ==> ParseValue(RenderValue(v)).Err?
  {
    RenderSpells(v);
    DocumentParses(v, RenderValue(v));
  }

  /** Two values with a common document are equal: layout never changes what is meant. */
  lemma DocumentUnambiguous(v: Value, w: Value, n: Node)
    requires Stored(v) && Stored(w) && NamesNotBlank(v) && Spells(v, n) && Spells(w, n)
    ensures v == w
  {
    hide Spells, ParseValue;
    DocumentParses(v, n);
    DocumentParses(w, n);
  }
}
