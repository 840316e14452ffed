// The two XML documents the mapping interpreter reads (RDFer/RDFer.cs):
// the mapping configuration, kept as a tree, and the data document, which
// is reached only through XPath and is therefore an oracle. Also here: the
// tag dispatch of ExecConfig, GetChildren, and the searches the interpreter
// makes in the configuration with XPath and GetElementsByTagName.

module RdferConfig {
  import opened Wrappers
  import opened DotNet
  import opened RdfOutputs

  // ---------------------------------------------------------------------
  // The configuration document

  /** An XmlNode of the configuration: an element with its attributes and
      children, a text node, a comment, a CDATA section, or the whitespace
      kept under xml:space="preserve". The document itself is an element
      named "#document". */
  datatype ConfigNode =
    | Element(name: string, attributes: map<string, string>, children: seq<ConfigNode>)
    | Text(content: string)
    | Comment(content: string)
    | CData(content: string)
    | SignificantWhitespace(content: string)

  /** XmlNode.Name. */
  function Name(n: ConfigNode): string
  {
    match n
    case Element(name, _, _) => name
    case Text(_) => "#text"
    case Comment(_) => "#comment"
    case CData(_) => "#cdata-section"
    case SignificantWhitespace(_) => "#significant-whitespace"
  }

  /** XmlNode.ChildNodes. */
  function Children(n: ConfigNode): seq<ConfigNode>
  {
    if n.Element? then n.children else []
  }

  /** node.Attributes[key]?.Value, on an element. */
  function Attr(n: ConfigNode, key: string): (r: Option<string>)
    requires n.Element?
    ensures r.Some? <==> key in n.attributes
  {
    if key in n.attributes then Some(n.attributes[key]) else None
  }

  // ---------------------------------------------------------------------
  // GetChildren

  /** child.Name.ToLower() == name.ToLower(), node kind by node kind: the
      names of the nodes that are not elements are lower case already. */
  predicate NamedLike(n: ConfigNode, name: string)
  {
    match n
    case Element(tag, _, _) => ToLower(tag) == ToLower(name)
    case _ => Name(n) == ToLower(name)
  }

  /** NamedLike compares both names lower-cased. */
  lemma NamedLikeLowerCased(n: ConfigNode, name: string)
    ensures NamedLike(n, name) <==> ToLower(Name(n)) == ToLower(name)
  {
    if !n.Element? {
      assert ToLower(Name(n)) == Name(n);
    }
  }

  /** The nodes, in order, whose name equals name ignoring case. */
  function ChildrenNamed(nodes: seq<ConfigNode>, name: string): (r: seq<ConfigNode>)
    ensures |r| <= |nodes|
  {
    if |nodes| == 0 then []
    else
      var last := nodes[|nodes| - 1];
      var front := ChildrenNamed(nodes[..|nodes| - 1], name);
      front + (if NamedLike(last, name) then [last] else [])
  }

  /** The selection holds exactly the nodes whose name is like name. */
  lemma {:induction false} ChildrenNamedMembers(nodes: seq<ConfigNode>, name: string)
    ensures forall c :: c in ChildrenNamed(nodes, name) <==> c in nodes && NamedLike(c, name)
  {
    if |nodes| > 0 {
      var front := nodes[..|nodes| - 1];
      ChildrenNamedMembers(front, name);
      assert nodes == front + [nodes[|nodes| - 1]];
    }
  }

  /** One more node extends the selection by that node when its name is
      like name, and by nothing otherwise. */
  lemma ChildrenNamedStep(nodes: seq<ConfigNode>, i: nat, name: string)
    requires i < |nodes|
    ensures ChildrenNamed(nodes[..i + 1], name)
         == ChildrenNamed(nodes[..i], name) + (if NamedLike(nodes[i], name) then [nodes[i]] else [])
  {
    assert nodes[..i + 1][..i] == nodes[..i];
  }

  method GetChildren(node: ConfigNode, name: string) returns (r: seq<ConfigNode>)
    ensures r == ChildrenNamed(Children(node), name)
  {
    var nodes := Children(node);
    r := [];
    var i := 0;
    while i < |nodes|
      invariant 0 <= i <= |nodes|
      invariant r == ChildrenNamed(nodes[..i], name)
    {
      ChildrenNamedStep(nodes, i, name);
      var child := nodes[i];
      if NamedLike(child, name) {
        r := r + [child];
      }
      i := i + 1;
    }
    assert nodes[..i] == nodes;
  }

  /** The children GetChildren returns are children of the node, and so
      smaller than it. */
  lemma ChildrenNamedAreChildren(node: ConfigNode, name: string, c: ConfigNode)
    requires c in ChildrenNamed(Children(node), name)
    ensures node.Element? && c in node.children && c < node
  {
    ChildrenNamedMembers(Children(node), name);
  }

  // ---------------------------------------------------------------------
  // The tag dispatch of ExecConfig

  /** The handlers a tag can reach. */
  datatype Handler =
    | DoError | DoCounter | DoUniqueidentifier | DoIdentifier | DoUsenamedmapping
    | DoMapping | DoResource | DoIf | DoElse | DoSwitch | DoTriple | DoType | DoBnode

  /** What ExecConfig does with a child: pass over it, call a handler, or
      throw. */
  datatype Dispatch = Skip | Run(handler: Handler) | Fail(error: Exception)

  /** The method name a tag selects: "Do", the first character upper-cased,
      the rest lower-cased. */
  function MethodName(name: string): string
    requires |name| > 0
  {
    "Do" + [UpperChar(name[0])] + ToLower(name[1..])
  }

  /** The dispatch on the method name; an empty name makes Substring throw
      before the name is formed. */
  function DispatchFor(name: string): Dispatch
  {
    if |name| == 0 then Fail(ArgumentOutOfRange)
    else match MethodName(name)
      case "Do#text" => Skip
      case "Do#comment" => Skip
      case "DoPartition" => Skip
      case "DoNamespaces" => Skip
      case "DoSplit" => Skip
      case "DoNamedmapping" => Skip
      case "DoForeach" => Run(DoMapping)
      case "DoError" => Run(DoError)
      case "DoCounter" => Run(DoCounter)
      case "DoUniqueidentifier" => Run(DoUniqueidentifier)
      case "DoIdentifier" => Run(DoIdentifier)
      case "DoUsenamedmapping" => Run(DoUsenamedmapping)
      case "DoMapping" => Run(DoMapping)
      case "DoResource" => Run(DoResource)
      case "DoIf" => Run(DoIf)
      case "DoElse" => Run(DoElse)
      case "DoSwitch" => Run(DoSwitch)
      case "DoTriple" => Run(DoTriple)
      case "DoType" => Run(DoType)
      case "DoBnode" => Run(DoBnode)
      case _ => Fail(UnknownMethod(name))
  }

  lemma UpperOfLower(c: char)
    ensures UpperChar(LowerChar(c)) == UpperChar(c)
  {
  }

  /** Tags are matched ignoring case. */
  lemma DispatchIgnoresCase(a: string, b: string)
    requires |a| > 0 && ToLower(a) == ToLower(b)
    ensures DispatchFor(a) == DispatchFor(b) || (DispatchFor(a).Fail? && DispatchFor(b).Fail?)
  {
    assert |b| == |a|;
    assert LowerChar(a[0]) == ToLower(a)[0] == ToLower(b)[0] == LowerChar(b[0]);
    UpperOfLower(a[0]);
    UpperOfLower(b[0]);
    assert ToLower(a[1..]) == ToLower(a)[1..] == ToLower(b)[1..] == ToLower(b[1..]);
    assert MethodName(a) == MethodName(b);
  }

  /** Text and comment nodes are passed over. */
  lemma NonElementsSkipped(n: ConfigNode)
    requires n.Text? || n.Comment?
    ensures DispatchFor(Name(n)) == Skip
  {
    var name := Name(n);
    if n.Text? {
      assert name[1..] == "text";
      assert ToLower(name[1..]) == name[1..];
      assert MethodName(name) == "Do#text";
    } else {
      assert name[1..] == "comment";
      assert ToLower(name[1..]) == name[1..];
      assert MethodName(name) == "Do#comment";
    }
  }

  /** No method name on the dispatch list has 16 characters or more than
      18, so a tag of 14 characters or of 17 or more selects none. */
  lemma UnmatchedLength(name: string)
    requires |name| == 14 || |name| >= 17
    ensures DispatchFor(name) == Fail(UnknownMethod(name))
  {
    assert |MethodName(name)| == |name| + 2;
  }

  /** A CDATA section or significant whitespace has no handler and no place
      on the skip list, so it is an unknown tag. */
  lemma OtherNodesUnknown(n: ConfigNode)
    requires n.CData? || n.SignificantWhitespace?
    ensures DispatchFor(Name(n)) == Fail(UnknownMethod(Name(n)))
  {
    UnmatchedLength(Name(n));
  }

  /** The dispatch of one child, kind by kind: an element by its tag, text
      and comments passed over, and any other node an unknown tag. */
  function NodeDispatch(n: ConfigNode): (d: Dispatch)
    ensures d.Run? ==> n.Element?
  {
    match n
    case Element(name, _, _) => DispatchFor(name)
    case Text(_) => Skip
    case Comment(_) => Skip
    case _ => Fail(UnknownMethod(Name(n)))
  }

  /** Dispatching kind by kind is dispatching on the node's name. */
  lemma NodeDispatchByName(n: ConfigNode)
    ensures NodeDispatch(n) == DispatchFor(Name(n))
  {
    if n.Text? || n.Comment? {
      NonElementsSkipped(n);
    } else if !n.Element? {
      OtherNodesUnknown(n);
    }
  }

  /** <foreach> is <mapping> under another name, and the tags a <switch>
      consumes itself are unknown everywhere else. */
  lemma ForeachAndCase(foreach: string, mapping: string, caseTag: string)
    requires foreach == "foreach" && mapping == "mapping" && caseTag == "case"
    ensures DispatchFor(foreach) == DispatchFor(mapping) == Run(DoMapping)
    ensures DispatchFor(caseTag) == Fail(UnknownMethod(caseTag))
  {
    assert ToLower(foreach[1..]) == foreach[1..];
    assert ToLower(mapping[1..]) == mapping[1..];
    assert ToLower(caseTag[1..]) == caseTag[1..];
    assert MethodName(foreach) == "DoForeach";
    assert MethodName(mapping) == "DoMapping";
    assert MethodName(caseTag) == "DoCase";
  }

  // ---------------------------------------------------------------------
  // Searches in the configuration

  /** Every node below n in document order, each with the name of its
      parent. */
  function Descendants(n: ConfigNode): seq<(string, ConfigNode)>
    decreases n, 1
  {
    DescendantsFrom(n, 0)
  }

  function DescendantsFrom(n: ConfigNode, i: nat): seq<(string, ConfigNode)>
    decreases n, 0, |Children(n)| - i
  {
    if i >= |Children(n)| then []
    else
      var c := Children(n)[i];
      [(Name(n), c)] + Descendants(c) + DescendantsFrom(n, i + 1)
  }

  /** XmlDocument.GetElementsByTagName(name): the elements of that exact
      name below the document, in document order. */
  function ElementsByTagName(doc: ConfigNode, name: string): (r: seq<ConfigNode>)
    ensures forall k :: 0 <= k < |r| ==> r[k].Element? && r[k].name == name
  {
    TagFilter(Descendants(doc), name)
  }

  function TagFilter(entries: seq<(string, ConfigNode)>, name: string): (r: seq<ConfigNode>)
    ensures forall k :: 0 <= k < |r| ==> r[k].Element? && r[k].name == name
  {
    if |entries| == 0 then []
    else
      var e := entries[0].1;
      (if e.Element? && e.name == name then [e] else []) + TagFilter(entries[1..], name)
  }

  /** The first child element, in order, with exactly that name. */
  function FirstChildElement(nodes: seq<ConfigNode>, name: string): (r: Option<ConfigNode>)
    ensures r.Some? ==> r.value in nodes && r.value.Element? && r.value.name == name
  {
    if |nodes| == 0 then None
    else if nodes[0].Element? && nodes[0].name == name then Some(nodes[0])
    else FirstChildElement(nodes[1..], name)
  }

  /** SelectSingleNode("config/namespaces") on the document. */
  function NamespacesNode(doc: ConfigNode): Option<ConfigNode>
  {
    match FirstChildElement(Children(doc), "config")
    case Some(c) => FirstChildElement(c.children, "namespaces")
    case None => None
  }

  predicate IsNamedMapping(entry: (string, ConfigNode), name: string)
  {
    entry.0 == "config" && entry.1.Element? && entry.1.name == "namedmapping" &&
    Attr(entry.1, "name") == Some(name)
  }

  function FirstNamedMapping(entries: seq<(string, ConfigNode)>, name: string): (r: Option<nat>)
    ensures r.Some? ==> r.value < |entries| && IsNamedMapping(entries[r.value], name)
    ensures r.Some? ==> forall k :: 0 <= k < r.value ==> !IsNamedMapping(entries[k], name)
    ensures r.None? ==> forall k :: 0 <= k < |entries| ==> !IsNamedMapping(entries[k], name)
  {
    if |entries| == 0 then None
    else if IsNamedMapping(entries[0], name) then Some(0)
    else match FirstNamedMapping(entries[1..], name)
      case Some(k) => Some(k + 1)
      case None => None
  }

  /** The number of apostrophes in s. */
  function Apostrophes(s: string): (n: nat)
    ensures n == 0 <==> '\'' !in s
    ensures n <= |s|
  {
    if |s| == 0 then 0
    else (if s[0] == '\'' then 1 else 0) + Apostrophes(s[1..])
  }

  /** The expression RDFer.cs builds by pasting the name between
      apostrophes. */
  function NamedMappingPath(name: string): string
  {
    "//config/namedmapping[@name='" + name + "']"
  }

  /** SelectSingleNode on NamedMappingPath(name). Without an apostrophe the
      name is one string literal, and the result is the first <namedmapping>
      directly under a <config>, in document order, whose name attribute is
      name. An odd number of apostrophes leaves a literal open, so the
      expression does not compile. An even number closes the literal early
      and the rest of the name is read as XPath ("a' or '1'='1" selects the
      first namedmapping whatever its name): select, the configuration
      document's own SelectSingleNode, gives what that expression yields. */
  function FindNamedMapping(doc: ConfigNode, name: string, select: string -> Result<Option<ConfigNode>>)
    : (r: Result<Option<ConfigNode>>)
    ensures Apostrophes(name) % 2 == 1 ==> r == Err(XPathFailure(NamedMappingPath(name)))
    ensures Apostrophes(name) > 0 && Apostrophes(name) % 2 == 0 ==> r == select(NamedMappingPath(name))
    ensures Apostrophes(name) == 0 ==> r.Ok?
    ensures Apostrophes(name) == 0 && r.Ok? && r.value.Some? ==>
      exists k :: 0 <= k < |Descendants(doc)| && Descendants(doc)[k] == ("config", r.value.value) &&
        IsNamedMapping(Descendants(doc)[k], name) &&
        forall j :: 0 <= j < k ==> !IsNamedMapping(Descendants(doc)[j], name)
    ensures Apostrophes(name) == 0 && r.Ok? && r.value.None? ==>
      forall k :: 0 <= k < |Descendants(doc)| ==> !IsNamedMapping(Descendants(doc)[k], name)
  {
    if Apostrophes(name) % 2 == 1 then Err(XPathFailure(NamedMappingPath(name)))
    else if Apostrophes(name) > 0 then select(NamedMappingPath(name))
    else
      var entries := Descendants(doc);
      match FirstNamedMapping(entries, name)
      case Some(k) => Ok(Some(entries[k].1))
      case None => Ok(None)
  }

  lemma {:induction false} ApostrophesConcat(a: string, b: string)
    ensures Apostrophes(a + b) == Apostrophes(a) + Apostrophes(b)
  {
    if |a| > 0 {
      assert (a + b)[1..] == a[1..] + b;
      ApostrophesConcat(a[1..], b);
    } else {
      assert a + b == b;
    }
  }

  /** A name a + "' or '" + b + "'='" + b, such as "a' or '1'='1", holds
      four apostrophes when a and b hold none: the expression it makes
      compiles, its condition 'b'='b' always holds, and the lookup is
      whatever that expression selects rather than a search by name. */
  lemma InjectedName(doc: ConfigNode, select: string -> Result<Option<ConfigNode>>, a: string, b: string)
    requires '\'' !in a && '\'' !in b
    ensures var name := a + "' or '" + b + "'='" + b;
      Apostrophes(name) == 4 && FindNamedMapping(doc, name, select) == select(NamedMappingPath(name))
  {
    assert Apostrophes("' or '") == 2;
    assert Apostrophes("'='") == 2;
    ApostrophesConcat(a, "' or '");
    ApostrophesConcat(a + "' or '", b);
    ApostrophesConcat(a + "' or '" + b, "'='");
    ApostrophesConcat(a + "' or '" + b + "'='", b);
  }

  // ---------------------------------------------------------------------
  // The data document

  /** A node of the data document, known only by a handle. */
  type DataNode = nat

  /** What evaluating an XPath expression on a data node gives: its
      ReturnType with the value, a number as double.ToString() renders it,
      or an expression that does not compile. */
  datatype XPathResult =
    | NodeSet(nodes: seq<DataNode>)
    | Str(text: string)
    | Num(rendered: string)
    | Bool(truth: bool)
    | Other
    | Invalid

  /** The data document: its root, XPath evaluation on a context node (with
      the namespace manager built from the data), and InnerText. */
  datatype DataDocument = DataDocument(
    root: DataNode,
    evaluate: (DataNode, string) -> XPathResult,
    innerText: DataNode -> string)

  /** XmlNode.SelectNodes: an expression that does not compile, or that
      gives anything but a node set, is an XPathException. */
  function SelectNodes(d: DataDocument, context: DataNode, path: string): (r: Result<seq<DataNode>>)
    ensures r.Ok? <==> d.evaluate(context, path).NodeSet?
    ensures r.Ok? ==> r.value == d.evaluate(context, path).nodes
    ensures r.Err? ==> r.error == XPathFailure(path)
  {
    match d.evaluate(context, path)
    case NodeSet(nodes) => Ok(nodes)
    case _ => Err(XPathFailure(path))
  }
}
