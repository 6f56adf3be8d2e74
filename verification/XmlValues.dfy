/** XML-RPC values: printed as an element tree and parsed back. */
module XmlValues {
  import opened Results
  import opened Decimal
  import opened Text
  import Base64

  // ----- Trees and values -----

  datatype Node = TextNode(content: string) | Element(name: string, children: seq<Node>) | Comment(remark: string) {

    function Children(): seq<Node> {
      if Element? then children else []
    }

    /** `get_child_text`: the first text among the children. */
    function ChildText(): Option<string> {
      FirstText(Children())
    }
  }

  function FirstText(ns: seq<Node>): Option<string> {
    if ns == [] then None else if ns[0].TextNode? then Some(ns[0].content) else FirstText(ns[1..])
  }

  function Size(n: Node): nat {
    1 + if n.Element? then SizeAll(n.children) else 0
  }

  function SizeAll(ns: seq<Node>): nat {
    if ns == [] then 0 else Size(ns[0]) + SizeAll(ns[1..])
  }

  datatype Value =
    | Nil
    | Int(i: int)
    | Bool(b: bool)
    | String(s: string)
    | Binary(data: seq<Base64.Byte>)
    | Array(items: seq<Value>)
    | Struct(members: seq<Member>)

  /** A member of a structure; the members are kept in the order of their names. */
  datatype Member = Member(name: string, value: Value)

  datatype XmlError =
    | Violation
    | MalformedBase64
    | NotModelled
    | Undefined

  // ----- Structures as sorted lists -----

  /** The order of a container keyed by strings. */
  predicate Less(a: string, b: string) {
    b != [] && (a == [] || a[0] < b[0] || (a[0] == b[0] && Less(a[1..], b[1..])))
  }

  lemma {:induction false} LessIsStrict(a: string, b: string)
    requires Less(a, b)
    ensures a != b && !Less(b, a)
  {
    if a != [] && a[0] == b[0] {
      LessIsStrict(a[1..], b[1..]);
    }
  }

  /** `values[name] = value`. */
  function Insert(ms: seq<Member>, m: Member): seq<Member> {
    if ms == [] then [m]
    else if ms[0].name == m.name then [m] + ms[1..]
    else if Less(m.name, ms[0].name) then [m] + ms
    else [ms[0]] + Insert(ms[1..], m)
  }

  predicate Sorted(ms: seq<Member>) {
    forall i, j :: 0 <= i < j < |ms| ==> Less(ms[i].name, ms[j].name)
  }

  lemma {:induction false} InsertLast(ms: seq<Member>, m: Member)
    requires forall i :: 0 <= i < |ms| ==> Less(ms[i].name, m.name)
    ensures Insert(ms, m) == ms + [m]
  {
    hide Less;
    if ms != [] {
      LessIsStrict(ms[0].name, m.name);
      InsertLast(ms[1..], m);
      assert ms == [ms[0]] + ms[1..];
    }
  }

  // ----- Printing -----

  function RenderValue(v: Value): Node
    decreases v, 1
  {
    Element("value", [RenderType(v)])
  }

  function RenderType(v: Value): Node
    decreases v, 0
  {
    match v
    case Nil => Element("nil", [])
    case Int(i) => Element("i4", [TextNode(IntToString(i))])
    case Bool(b) => Element("boolean", [TextNode(if b then "1" else "0")])
    case String(s) => Element("string", [TextNode(s)])
    case Binary(d) => Element("base64", [TextNode(Base64.Encode(d))])
    case Array(items) => Element("array", [Element("data", RenderItems(items))])
    case Struct(members) => Element("struct", RenderMembers(members))
  }

  function RenderItems(vs: seq<Value>): seq<Node> {
    if vs == [] then [] else [RenderValue(vs[0])] + RenderItems(vs[1..])
  }

  function RenderMember(m: Member): Node
    decreases m, 2
  {
    Element("member", [Element("name", [TextNode(m.name)]), RenderValue(m.value)])
  }

  function RenderMembers(ms: seq<Member>): seq<Node> {
    if ms == [] then [] else [RenderMember(ms[0])] + RenderMembers(ms[1..])
  }

  // ----- Parsing -----

  /** The characters that may stand between elements. */
  predicate IsXmlSpace(s: string) {
    forall i :: 0 <= i < |s| ==> s[i] == '\t' || s[i] == '\n' || s[i] == '\r' || s[i] == ' '
  }

  /** `elements_only`: texts must be white space and are dropped, and so is anything but elements. */
  function ElementsOnly(ns: seq<Node>): (r: Result<seq<Node>, XmlError>)
    ensures r.Ok? ==> SizeAll(r.value) <= SizeAll(ns)
    ensures r.Ok? ==> forall e :: e in r.value ==> e.Element?
  {
    if ns == [] then
      Ok([])
    else if ns[0].TextNode? && !IsXmlSpace(ns[0].content) then
      Err(Violation)
    else
      var rest :- ElementsOnly(ns[1..]);
      Ok(if ns[0].Element? then [ns[0]] + rest else rest)
  }

  function SingleElement(n: Node): (r: Result<Node, XmlError>)
    ensures r.Ok? ==> Size(r.value) < Size(n)
  {
    var es :- ElementsOnly(n.Children());
    if |es| == 1 then SizeOne(es[0]); Ok(es[0]) else Err(Violation)
  }

  lemma SizeOne(n: Node)
    ensures SizeAll([n]) == Size(n)
  {
    assert [n][1..] == [];
  }

  datatype Parser = IntParser | BooleanParser | DoubleParser | StringParser | NilParser | Base64Parser | DateTimeParser
                  | ArrayParser | StructParser

  /** The table the constructor of the parser fills; the empty name is the default type. */
  const TYPES: seq<(string, Parser)> := [
    ("i4", IntParser), ("int", IntParser), ("boolean", BooleanParser), ("double", DoubleParser),
    ("string", StringParser), ("", StringParser), ("nil", NilParser), ("base64", Base64Parser),
    ("dateTime.iso8601", DateTimeParser), ("array", ArrayParser), ("struct", StructParser)]

  /** The first entry with that name. */
  function Lookup(types: seq<(string, Parser)>, name: string): Option<Parser> {
    if types == [] then None else if types[0].0 == name then Some(types[0].1) else Lookup(types[1..], name)
  }

  /** What a value element holds: the element itself if its only child is a text (a string of the default
      type), nothing if it has no child, else the one element inside. */
  function ValueNode(n: Node): Result<(Option<Node>, string), XmlError> {
    var childs := n.Children();
    if |childs| == 1 && childs[0].TextNode? then
      Ok((Some(n), ""))
    else if childs == [] then
      Ok((None, ""))
    else
      var e :- SingleElement(n);
      Ok((Some(e), e.name))
  }

  function ParseInt(n: Node): Result<Value, XmlError> {
    match n.ChildText()
    case None => Err(Violation)
    case Some(t) =>
      match LexicalInt(SkipBlank(t))
      case Some(i) => Ok(Int(i))
      case None => Err(Violation)
  }

  function ParseBoolean(n: Node): Result<Value, XmlError> {
    match n.ChildText()
    case None => Err(Violation)
    case Some(t) =>
      if t == "1" || t == "true" then Ok(Bool(true))
      else if t == "0" || t == "false" then Ok(Bool(false))
      else Err(Violation)
  }

  function ParseString(n: Node): Value {
    match n.ChildText()
    case None => String("")
    case Some(t) => String(t)
  }

  function ParseBase64(n: Node): Result<Value, XmlError> {
    match Base64.Decode(match n.ChildText() case None => "" case Some(t) => t)
    case Ok(d) => Ok(Binary(d))
    case Err(_) => Err(MalformedBase64)
  }

  /** The name of a member: one child, a text that is not blank. */
  function MemberName(n: Node): Result<string, XmlError> {
    if |n.Children()| != 1 then
      Err(Violation)
    else
      match n.ChildText()
      case None => Err(Undefined)
      case Some(t) => if IsXmlSpace(t) then Err(Violation) else Ok(t)
  }

  /** `parse_value`. */
  function ParseValue(n: Node): Result<Value, XmlError>
    decreases Size(n), 1
  {
    if !n.Element? || n.name != "value" then
      Err(Violation)
    else
      var (inner, tname) :- ValueNode(n);
      match Lookup(TYPES, tname)
      case None => Err(Violation)
      case Some(p) =>
        match inner
        case None => Ok(String(""))
        case Some(e) => if e == n then Ok(ParseString(n)) else InnerSmaller(n); ParseType(p, e)
  }

  lemma InnerSmaller(n: Node)
    ensures ValueNode(n).Ok? && ValueNode(n).value.0.Some? && ValueNode(n).value.0.value != n
            ==> Size(ValueNode(n).value.0.value) < Size(n)
  {
  }

  function ParseType(p: Parser, e: Node): Result<Value, XmlError>
    decreases Size(e), 0
  {
    match p
    case NilParser => Ok(Nil)
    case IntParser => ParseInt(e)
    case BooleanParser => ParseBoolean(e)
    case StringParser => Ok(ParseString(e))
    case Base64Parser => ParseBase64(e)
    case DoubleParser => Err(NotModelled)
    case DateTimeParser => Err(NotModelled)
    case ArrayParser =>
      var data :- SingleElement(e);
      if data.name != "data" then
        Err(Violation)
      else
        var es :- ElementsOnly(data.Children());
        var items :- ParseItems(es);
        Ok(Array(items))
    case StructParser =>
      var es :- ElementsOnly(e.Children());
      var members :- ParseMembers(es, []);
      Ok(Struct(members))
  }

  function ParseItems(es: seq<Node>): Result<seq<Value>, XmlError>
    decreases SizeAll(es), 2
  {
    if es == [] then
      Ok([])
    else
      var v :- ParseValue(es[0]);
      var rest :- ParseItems(es[1..]);
      Ok([v] + rest)
  }

  function ParseMember(e: Node): Result<Member, XmlError>
    decreases Size(e), 1
  {
    if !e.Element? || e.name != "member" then
      Err(Violation)
    else
      var mbr :- ElementsOnly(e.Children());
      if mbr == [] then
        Err(Undefined)
      else if mbr[0].name != "name" then
        Err(Violation)
      else
        var name :- MemberName(mbr[0]);
        LastSmaller(mbr);
        var value :- ParseValue(mbr[|mbr| - 1]);
        Ok(Member(name, value))
  }

  lemma {:induction false} LastSmaller(ns: seq<Node>)
    requires ns != []
    ensures Size(ns[|ns| - 1]) <= SizeAll(ns)
  {
    if |ns| > 1 {
      LastSmaller(ns[1..]);
    }
  }

  function ParseMembers(es: seq<Node>, sofar: seq<Member>): Result<seq<Member>, XmlError>
    decreases SizeAll(es), 2
  {
    if es == [] then
      Ok(sofar)
    else
      var m :- ParseMember(es[0]);
      ParseMembers(es[1..], Insert(sofar, m))
  }

  // ----- The visitor -----

  /** The visitor that adds the tree of a value to its parent, which is held here as the list of the
      parent's children. */
  class ValueTypeToXml {
    var parent: seq<Node>

    constructor ()
      ensures parent == []
    {
      parent := [];
    }

    method AddChildWithContent(name: string, content: string)
      modifies this
      ensures parent == old(parent) + [Element(name, [TextNode(content)])]
    {
      parent := parent + [Element(name, [TextNode(content)])];
    }

    method VisitValue(v: Value)
      modifies this
      ensures parent == old(parent) + [RenderValue(v)]
      decreases v, 1
    {
      var vis := new ValueTypeToXml();
      vis.Visit(v);
      assert vis.parent == [RenderType(v)];
      parent := parent + [Element("value", vis.parent)];
    }

    /** `apply_visitor` and the visit methods of the types. */
    method Visit(v: Value)
      modifies this
      ensures parent == old(parent) + [RenderType(v)]
      decreases v, 0
    {
      match v
      case Nil => parent := parent + [Element("nil", [])];
      case Int(i) => AddChildWithContent("i4", IntToString(i));
      case Bool(b) => AddChildWithContent("boolean", if b then "1" else "0");
      case String(s) => AddChildWithContent("string", s);
      case Binary(d) => AddChildWithContent("base64", Base64.Encode(d));
      case Array(items) =>
        var vis := new ValueTypeToXml();
        var i := 0;
        assert items[..0] == [];
        while i < |items|
          invariant 0 <= i <= |items|
          invariant fresh(vis) && parent == old(parent)
          invariant vis.parent == RenderItems(items[..i])
        {
          vis.VisitValue(items[i]);
          RenderItemsSnoc(items[..i], items[i]);
          assert items[..i] + [items[i]] == items[..i + 1];
          i := i + 1;
        }
        assert items[..i] == items;
        parent := parent + [Element("array", [Element("data", vis.parent)])];
      case Struct(members) =>
        var strEl: seq<Node> := [];
        var i := 0;
        assert members[..0] == [];
        while i < |members|
          invariant 0 <= i <= |members|
          invariant parent == old(parent)
          invariant strEl == RenderMembers(members[..i])
        {
          var vis := new ValueTypeToXml();
          vis.AddChildWithContent("name", members[i].name);
          vis.VisitValue(members[i].value);
          assert vis.parent == [Element("name", [TextNode(members[i].name)]), RenderValue(members[i].value)];
          strEl := strEl + [Element("member", vis.parent)];
          RenderMembersSnoc(members[..i], members[i]);
          assert members[..i] + [members[i]] == members[..i + 1];
          i := i + 1;
        }
        assert members[..i] == members;
        parent := parent + [Element("struct", strEl)];
    }
  }

  lemma {:induction false} RenderItemsSnoc(vs: seq<Value>, v: Value)
    ensures RenderItems(vs + [v]) == RenderItems(vs) + [RenderValue(v)]
    decreases |vs|
  {
    hide RenderValue;
    if vs == [] {
      assert [v][1..] == [] && [] + [v] == [v];
    } else {
      assert (vs + [v])[1..] == vs[1..] + [v];
      RenderItemsSnoc(vs[1..], v);
    }
  }

  lemma {:induction false} RenderMembersSnoc(ms: seq<Member>, m: Member)
    ensures RenderMembers(ms + [m]) == RenderMembers(ms) + [RenderMember(m)]
    decreases |ms|
  {
    hide RenderMember;
    if ms == [] {
      assert [m][1..] == [] && [] + [m] == [m];
    } else {
      assert (ms + [m])[1..] == ms[1..] + [m];
      RenderMembersSnoc(ms[1..], m);
    }
  }

  // ----- The parser's loops -----

  method ElementsOnlyLoop(n: Node) returns (r: Result<seq<Node>, XmlError>)
    ensures r == ElementsOnly(n.Children())
  {
    var childs := n.Children();
    var elems: seq<Node> := [];
    var i := 0;
    assert childs[0..] == childs;
    assert ElementsOnly(childs).Ok? ==> elems + ElementsOnly(childs).value == ElementsOnly(childs).value;
    while i < |childs|
      invariant 0 <= i <= |childs|
      invariant ElementsOnly(childs) == (var rest :- ElementsOnly(childs[i..]); Ok(elems + rest))
    {
      var c := childs[i];
      assert childs[i..][1..] == childs[i + 1..];
      if c.TextNode? {
        if !IsXmlSpace(c.content) {
          return Err(Violation);
        }
      } else if c.Element? {
        assert forall rest: seq<Node> :: elems + ([c] + rest) == elems + [c] + rest;
        elems := elems + [c];
      }
      i := i + 1;
    }
    assert elems + [] == elems;
    return Ok(elems);
  }

  method LookupLoop(types: seq<(string, Parser)>, tname: string) returns (p: Option<Parser>)
    ensures p == Lookup(types, tname)
  {
    var i := 0;
    while i < |types|
      invariant 0 <= i <= |types|
      invariant Lookup(types, tname) == Lookup(types[i..], tname)
    {
      assert types[i..][1..] == types[i + 1..];
      if types[i].0 == tname {
        return Some(types[i].1);
      }
      i := i + 1;
    }
    return None;
  }

  method ParseValueProgram(n: Node) returns (r: Result<Value, XmlError>)
    ensures r == ParseValue(n)
    decreases Size(n), 1
  {
    if !n.Element? || n.name != "value" {
      return Err(Violation);
    }
    var node := ValueNode(n);
    if node.Err? {
      return Err(node.error);
    }
    var (inner, tname) := node.value;
    var p := LookupLoop(TYPES, tname);
    if p.None? {
      return Err(Violation);
    }
    if inner.None? {
      return Ok(String(""));
    }
    if inner.value == n {
      return Ok(ParseString(n));
    }
    InnerSmaller(n);
    r := ParseTypeProgram(p.value, inner.value);
  }

  method ParseTypeProgram(p: Parser, e: Node) returns (r: Result<Value, XmlError>)
    ensures r == ParseType(p, e)
    decreases Size(e), 0
  {
    match p
    case NilParser => return Ok(Nil);
    case IntParser => return ParseInt(e);
    case BooleanParser => return ParseBoolean(e);
    case StringParser => return Ok(ParseString(e));
    case Base64Parser => return ParseBase64(e);
    case DoubleParser => return Err(NotModelled);
    case DateTimeParser => return Err(NotModelled);
    case ArrayParser => r := ArrayParserLoop(e);
    case StructParser => r := StructParserLoop(e);
  }

  lemma NoItems()
    ensures ParseItems([]) == Ok([])
  {
  }

  lemma ParseItemsAt(es: seq<Node>, i: nat)
    requires i < |es|
    ensures ParseItems(es[i..]) ==
            (var v :- ParseValue(es[i]); var rest :- ParseItems(es[i + 1..]); Ok([v] + rest))
    ensures SizeAll(es[i..]) == Size(es[i]) + SizeAll(es[i + 1..])
  {
    hide ParseValue, Size;
    assert es[i..][1..] == es[i + 1..];
  }

  /** `Array_parser::parse_value`. */
  method ArrayParserLoop(e: Node) returns (r: Result<Value, XmlError>)
    ensures r == ParseType(ArrayParser, e)
    decreases Size(e), 0, 0
  {
    hide ParseValue, IsXmlSpace, Lookup;
    var data := SingleElement(e);
    if data.Err? {
      return Err(data.error);
    }
    if data.value.name != "data" {
      return Err(Violation);
    }
    var es := ElementsOnlyLoop(data.value);
    if es.Err? {
      return Err(es.error);
    }
    var valueArr := es.value;
    var retval: seq<Value> := [];
    var i := 0;
    assert valueArr[0..] == valueArr && SizeAll(valueArr) < Size(e);
    hide ParseItems, SizeAll, Size;
    assert ParseItems(valueArr).Ok? ==> retval + ParseItems(valueArr).value == ParseItems(valueArr).value;
    while i < |valueArr|
      invariant 0 <= i <= |valueArr| && SizeAll(valueArr[i..]) < Size(e)
      invariant ParseItems(valueArr) == (var rest :- ParseItems(valueArr[i..]); Ok(retval + rest))
    {
      ParseItemsAt(valueArr, i);
      var v := ParseValueProgram(valueArr[i]);
      if v.Err? {
        return Err(v.error);
      }
      assert forall rest: seq<Value> :: retval + ([v.value] + rest) == retval + [v.value] + rest;
      retval := retval + [v.value];
      i := i + 1;
    }
    assert retval + [] == retval && valueArr[i..] == [];
    NoItems();
    return Ok(Array(retval));
  }

  /** `Struct_parser::parse_value`. */
  method StructParserLoop(e: Node) returns (r: Result<Value, XmlError>)
    ensures r == ParseType(StructParser, e)
    decreases Size(e), 0, 0
  {
    hide ParseValue, IsXmlSpace, Lookup, Insert;
    var es := ElementsOnlyLoop(e);
    if es.Err? {
      return Err(es.error);
    }
    var members := es.value;
    var s: seq<Member> := [];
    var i := 0;
    assert members[0..] == members;
    while i < |members|
      invariant 0 <= i <= |members| && SizeAll(members[i..]) < Size(e)
      invariant ParseMembers(members, []) == ParseMembers(members[i..], s)
    {
      var m := members[i];
      assert members[i..][1..] == members[i + 1..];
      if m.name != "member" {
        return Err(Violation);
      }
      var mbr := ElementsOnlyLoop(m);
      if mbr.Err? {
        return Err(mbr.error);
      }
      if mbr.value == [] {
        return Err(Undefined);
      }
      var front, back := mbr.value[0], mbr.value[|mbr.value| - 1];
      if front.name != "name" {
        return Err(Violation);
      }
      var name := MemberName(front);
      if name.Err? {
        return Err(name.error);
      }
      LastSmaller(mbr.value);
      var value := ParseValueProgram(back);
      if value.Err? {
        return Err(value.error);
      }
      s := Insert(s, Member(name.value, value.value));
      i := i + 1;
    }
    return Ok(Struct(s));
  }
}
