// The output buffer of the converter (RDFer/RdfOutput.cs): an RDF/XML
// document under construction, a store of sealed named graphs, and the
// serialisation format.
//
// The XmlDocument is modelled as an arena of element records addressed by
// handles (the model's XmlNode references). Re-initialising the buffer
// starts a new, empty root; elements built before that stay in the arena
// but are no longer reachable from the root, as nodes of the discarded
// document are in the source. A sealed graph is a value snapshot of the
// document it was built from.

module RdfOutputs {
  import opened Wrappers
  import opened DotNet

  datatype RdfFormat = RdfXml | TriG | Turtle | NTriples | N3 | NQuads

  datatype LiteralType = XsdInteger | XsdBoolean | XsdDateTime

  // ---------------------------------------------------------------------
  // The namespace table: a Dictionary<string, string> enumerated in
  // insertion order (entries are only ever added to it)

  type NamespaceTable = seq<(string, string)>

  predicate DistinctPrefixes(ns: NamespaceTable)
  {
    forall i, j :: 0 <= i < j < |ns| ==> ns[i].0 != ns[j].0
  }

  predicate HasPrefix(ns: NamespaceTable, prefix: string)
  {
    exists i :: 0 <= i < |ns| && ns[i].0 == prefix
  }

  /** The dictionary indexer: the URI of a prefix, or none (KeyNotFound). */
  function Lookup(ns: NamespaceTable, prefix: string): (r: Option<string>)
    ensures r.Some? <==> HasPrefix(ns, prefix)
    ensures r.Some? ==> exists i :: 0 <= i < |ns| && ns[i] == (prefix, r.value)
    decreases |ns|
  {
    if |ns| == 0 then None
    else if ns[0].0 == prefix then Some(ns[0].1)
    else
      var r := Lookup(ns[1..], prefix);
      assert forall i :: 1 <= i < |ns| ==> ns[i] == ns[1..][i - 1];
      r
  }

  /** With distinct prefixes, every entry is found under its own prefix. */
  lemma LookupFindsEntry(ns: NamespaceTable, i: nat)
    requires DistinctPrefixes(ns) && i < |ns|
    ensures Lookup(ns, ns[i].0) == Some(ns[i].1)
  {
    var r := Lookup(ns, ns[i].0);
    var j :| 0 <= j < |ns| && ns[j] == (ns[i].0, r.value);
    assert i == j;
  }

  // ---------------------------------------------------------------------
  // XML names, as XmlDocument checks them when it creates an element or
  // an attribute

  /** A character allowed in an XML name other than ':' (NameChar of
      section 2.3 of XML 1.0, fifth edition, without the colon). */
  predicate NameChar(c: char)
  {
    ('a' <= c <= 'z') || ('A' <= c <= 'Z') || ('0' <= c <= '9') || c == '_' || c == '-' || c == '.' ||
    c == '\U{B7}' || ('\U{C0}' <= c <= '\U{D6}') || ('\U{D8}' <= c <= '\U{F6}') ||
    ('\U{F8}' <= c <= '\U{37D}') || ('\U{37F}' <= c <= '\U{1FFF}') || ('\U{200C}' <= c <= '\U{200D}') ||
    ('\U{203F}' <= c <= '\U{2040}') || ('\U{2070}' <= c <= '\U{218F}') || ('\U{2C00}' <= c <= '\U{2FEF}') ||
    ('\U{3001}' <= c <= '\U{D7FF}') || ('\U{F900}' <= c <= '\U{FDCF}') || ('\U{FDF0}' <= c <= '\U{FFFD}') ||
    ('\U{10000}' <= c <= '\U{EFFFF}')
  }

  /** XmlDocument.CheckName: every character is a name character. The
      empty string passes, and so does a leading digit. */
  predicate NameChars(s: string)
  {
    forall i :: 0 <= i < |s| ==> NameChar(s[i])
  }

  /** Lower-case ASCII words, such as the fixed names the converter uses,
      are names. */
  lemma LowerCaseNameChars(s: string)
    requires forall i :: 0 <= i < |s| ==> 'a' <= s[i] <= 'z'
    ensures NameChars(s)
  {
  }

  /** What the XmlElement and XmlAttribute constructors throw for a prefix
      and a local name: CheckName on each, then an ArgumentException for an
      empty local name. */
  function NameCheck(prefix: string, localName: string): (r: Option<Exception>)
    ensures r.None? <==> NameChars(prefix) && NameChars(localName) && localName != ""
    ensures r.Some? && localName == "" && NameChars(prefix) ==> r.value.InvalidArgument?
    ensures r.Some? && localName != "" ==> r.value.BadXmlName?
  {
    if !NameChars(prefix) then Some(BadXmlName(prefix))
    else if !NameChars(localName) then Some(BadXmlName(localName))
    else if localName == "" then Some(InvalidArgument("empty local name"))
    else None
  }

  /** The first ':' of s. */
  function FirstColon(s: string): (r: Option<nat>)
    ensures r.Some? ==> r.value < |s| && s[r.value] == ':' && ':' !in s[..r.value]
    ensures r.None? <==> ':' !in s
  {
    if |s| == 0 then None
    else if s[0] == ':' then Some(0)
    else match FirstColon(s[1..])
      case Some(i) =>
        assert s[..i + 1] == [s[0]] + s[1..][..i];
        Some(i + 1)
      case None => None
  }

  /** XmlDocument.SplitName: prefix and local name at the first ':',
      unless the colon is the first or the last character, when the whole
      name is the local name. */
  function SplitName(name: string): (r: (string, string))
    ensures ':' !in r.0
    ensures r.0 == "" ==> r.1 == name
    ensures r.0 != "" ==> name == r.0 + ":" + r.1 && r.1 != ""
  {
    match FirstColon(name)
    case Some(i) =>
      if i == 0 || i == |name| - 1 then ("", name)
      else
        assert name == name[..i] + ":" + name[i + 1..];
        (name[..i], name[i + 1..])
    case None => ("", name)
  }

  /** What CreateElement(qualifiedName, uri) and CreateAttribute(name)
      throw for the name. */
  function QualifiedNameCheck(name: string): Option<Exception>
  {
    NameCheck(SplitName(name).0, SplitName(name).1)
  }

  /** "p:l" with p free of ':' is accepted exactly when both parts are
      non-empty names: an empty part leaves the colon in the local name. */
  lemma QualifiedNameOfParts(p: string, l: string)
    requires ':' !in p
    ensures QualifiedNameCheck(p + ":" + l).None? <==> p != "" && l != "" && NameChars(p) && NameChars(l)
    ensures p == "" || l == "" ==> QualifiedNameCheck(p + ":" + l) == Some(BadXmlName(p + ":" + l))
  {
    var name := p + ":" + l;
    assert name[|p|] == ':';
    var i := FirstColon(name).value;
    assert i == |p|;
    if p != "" && l != "" {
      assert name[..i] == p && name[i + 1..] == l;
    } else {
      assert !NameChar(name[|p|]);
    }
  }

  /** "xmlns:" + p, as SetAttribute declares a namespace, is a valid
      attribute name exactly when p is a non-empty name. */
  lemma XmlnsNameOf(p: string)
    ensures QualifiedNameCheck("xmlns:" + p).None? <==> p != "" && NameChars(p)
  {
    assert "xmlns:" + p == "xmlns" + ":" + p;
    QualifiedNameOfParts("xmlns", p);
    LowerCaseNameChars("xmlns");
  }

  /** The fixed names the converter creates are valid. */
  lemma FixedNamesValid()
    ensures NameCheck("rdf", "type").None? && NameCheck("rdf", "resource").None?
  {
    LowerCaseNameChars("rdf");
    LowerCaseNameChars("type");
    LowerCaseNameChars("resource");
  }

  // ---------------------------------------------------------------------
  // The document

  const XMLNS_URI := "http://www.w3.org/2000/xmlns/"
  const XML_URI := "http://www.w3.org/XML/1998/namespace"

  /** An attribute value: plain text, or an entity reference &entity;
      followed by text. */
  datatype AttrValue = Text(text: string) | EntityThen(entity: string, suffix: string)

  datatype Attribute = Attribute(name: string, namespaceUri: string, value: AttrValue)

  /** An element: qualified name, namespace, attributes, text content and
      the handles of its child elements. */
  datatype Element = Element(name: string, namespaceUri: string, attributes: seq<Attribute>,
                             text: string, children: seq<nat>)

  /** A snapshot of the document: the entity declarations of its document
      type (the internal subset is their concatenation), the attributes of
      the rdf:RDF root, and the elements reachable from the root's
      children. */
  datatype Document = Document(entityLines: seq<string>, rootAttributes: seq<Attribute>,
                               arena: seq<Element>, roots: seq<nat>)

  /** A named graph of the triple store and the documents merged into it. */
  datatype NamedGraph = NamedGraph(uri: string, documents: seq<Document>)

  function EntityLine(prefix: string, uri: string): string
  {
    "  <!ENTITY " + prefix + " \"" + uri + "\">\n"
  }

  /** One entity declaration per namespace, in table order. */
  function EntityLines(ns: NamespaceTable): (r: seq<string>)
    ensures |r| == |ns|
    ensures forall i :: 0 <= i < |ns| ==> r[i] == EntityLine(ns[i].0, ns[i].1)
  {
    if |ns| == 0 then []
    else EntityLines(ns[..|ns| - 1]) + [EntityLine(ns[|ns| - 1].0, ns[|ns| - 1].1)]
  }

  function Xmlns(entry: (string, string)): Attribute
  {
    Attribute("xmlns:" + entry.0, XMLNS_URI, Text(entry.1))
  }

  /** One xmlns: declaration on the root per namespace, in table order. */
  function XmlnsDeclarations(ns: NamespaceTable): (r: seq<Attribute>)
    ensures |r| == |ns|
    ensures forall i :: 0 <= i < |ns| ==> r[i] == Xmlns(ns[i])
  {
    if |ns| == 0 then [] else XmlnsDeclarations(ns[..|ns| - 1]) + [Xmlns(ns[|ns| - 1])]
  }

  /** The entity lines of the namespaces, one at a time. */
  method BuildEntityLines(ns: NamespaceTable) returns (lines: seq<string>)
    ensures lines == EntityLines(ns)
  {
    lines := [];
    var i := 0;
    while i < |ns|
      invariant 0 <= i <= |ns|
      invariant lines == EntityLines(ns[..i])
    {
      assert ns[..i + 1][..i] == ns[..i];
      lines := lines + [EntityLine(ns[i].0, ns[i].1)];
      i := i + 1;
    }
    assert ns[..i] == ns;
  }

  /** The xmlns: declarations of the namespaces, one at a time. */
  method BuildXmlnsDeclarations(ns: NamespaceTable) returns (declarations: seq<Attribute>)
    ensures declarations == XmlnsDeclarations(ns)
  {
    declarations := [];
    var i := 0;
    while i < |ns|
      invariant 0 <= i <= |ns|
      invariant declarations == XmlnsDeclarations(ns[..i])
    {
      assert ns[..i + 1][..i] == ns[..i];
      declarations := declarations + [Xmlns(ns[i])];
      i := i + 1;
    }
    assert ns[..i] == ns;
  }

  /** The rdf:about attribute: the entity of the prefix, then the URI. */
  function About(rdf: string, prefix: string, uri: string): Attribute
  {
    Attribute("rdf:about", rdf, EntityThen(prefix, uri))
  }

  function Description(rdf: string, attributes: seq<Attribute>): Element
  {
    Element("rdf:Description", rdf, attributes, "", [])
  }

  /** The attributes without any named like a. */
  function WithoutNamed(attributes: seq<Attribute>, a: Attribute): (r: seq<Attribute>)
    ensures forall k :: 0 <= k < |r| ==> r[k] in attributes
    ensures forall k :: 0 <= k < |r| ==> (r[k].name, r[k].namespaceUri) != (a.name, a.namespaceUri)
    ensures forall b :: b in attributes && (b.name, b.namespaceUri) != (a.name, a.namespaceUri) ==> b in r
  {
    if |attributes| == 0 then []
    else
      var rest := WithoutNamed(attributes[1..], a);
      if (attributes[0].name, attributes[0].namespaceUri) == (a.name, a.namespaceUri) then rest
      else [attributes[0]] + rest
  }

  /** XmlAttributeCollection.Append: an attribute of the same name is
      removed, and a goes at the end. */
  function AppendAttribute(attributes: seq<Attribute>, a: Attribute): (r: seq<Attribute>)
    ensures |r| > 0 && r[|r| - 1] == a
    ensures forall k :: 0 <= k < |r| - 1 ==> (r[k].name, r[k].namespaceUri) != (a.name, a.namespaceUri)
    ensures forall b :: b in attributes && (b.name, b.namespaceUri) != (a.name, a.namespaceUri) ==> b in r
  {
    WithoutNamed(attributes, a) + [a]
  }

  /** The element a predicate with an object resource adds: its attribute
      holds the object URI as it is when there is no object prefix. */
  function PredicateObjectElement(predicateName: string, predicateUri: string, attributeName: string,
                                  attributeUri: string, objectPrefix: string, objectUri: string): (r: Element)
    ensures |r.attributes| == 1 && r.children == [] && r.text == ""
    ensures objectPrefix == "" ==> r.attributes[0].value == Text(objectUri)
    ensures objectPrefix != "" ==> r.attributes[0].value == EntityThen(objectPrefix, objectUri)
  {
    var value := if objectPrefix == "" then Text(objectUri) else EntityThen(objectPrefix, objectUri);
    Element(predicateName, predicateUri, [Attribute(attributeName, attributeUri, value)], "", [])
  }

  /** The element of a literal with a datatype URI; an empty datatype gives
      an element with neither text nor attribute. */
  function TypedLiteralElement(predicateName: string, predicateUri: string, rdf: string,
                               literal: string, typeUri: string): (r: Element)
    ensures r.children == [] && r.name == predicateName
    ensures typeUri == "" ==> r.attributes == [] && r.text == ""
    ensures typeUri != "" ==> r.attributes == [Attribute("rdf:datatype", rdf, Text(typeUri))] && r.text == literal
  {
    if typeUri == "" then Element(predicateName, predicateUri, [], "", [])
    else Element(predicateName, predicateUri, [Attribute("rdf:datatype", rdf, Text(typeUri))], literal, [])
  }

  /** The element of a literal with a language; an empty language gives an
      element with neither text nor attribute. */
  function LanguageLiteralElement(predicateName: string, predicateUri: string,
                                  literal: string, languageCode: string): (r: Element)
    ensures r.children == [] && r.name == predicateName
    ensures languageCode == "" ==> r.attributes == [] && r.text == ""
    ensures languageCode != "" ==> r.attributes == [Attribute("xml:lang", XML_URI, Text(languageCode))] && r.text == literal
  {
    if languageCode == "" then Element(predicateName, predicateUri, [], "", [])
    else Element(predicateName, predicateUri, [Attribute("xml:lang", XML_URI, Text(languageCode))], literal, [])
  }

  /** The attribute name an xsd literal type selects. */
  function XsdAttributeName(t: LiteralType): string
  {
    match t
    case XsdInteger => "xsd:integer"
    case XsdBoolean => "xsd:boolean"
    case XsdDateTime => "xsd:dateTime"
  }

  /** Every handle points into the arena, and children are newer than their
      parent (so the element graph has no cycle). */
  predicate WellFormed(arena: seq<Element>, roots: seq<nat>)
  {
    (forall k :: 0 <= k < |roots| ==> roots[k] < |arena|) &&
    (forall i, k :: 0 <= i < |arena| && 0 <= k < |arena[i].children| ==> i < arena[i].children[k] < |arena|)
  }

  /** An element with no parent. */
  predicate Detached(arena: seq<Element>, roots: seq<nat>, h: nat)
  {
    h !in roots && forall i :: 0 <= i < |arena| ==> h !in arena[i].children
  }

  /** The element just appended has no parent yet. */
  lemma NewestDetached(arena: seq<Element>, roots: seq<nat>, e: Element)
    requires WellFormed(arena, roots) && e.children == []
    ensures Detached(arena + [e], roots, |arena|)
  {
  }

  /** Appending a childless element keeps the document a forest. */
  lemma AppendChildless(arena: seq<Element>, roots: seq<nat>, e: Element)
    requires WellFormed(arena, roots) && e.children == []
    ensures WellFormed(arena + [e], roots)
  {
    var a := arena + [e];
    forall i, k | 0 <= i < |a| && 0 <= k < |a[i].children|
      ensures i < a[i].children[k] < |a|
    {
      assert a[i] == arena[i];
    }
  }

  /** An element stays parentless while elements that do not adopt it are
      appended. */
  lemma DetachedStays(arena: seq<Element>, roots: seq<nat>, h: nat, e: Element)
    requires Detached(arena, roots, h) && h !in e.children
    ensures Detached(arena + [e], roots, h)
  {
  }

  /** The arena after e, childless, is created as the last child of parent. */
  function AttachNew(arena: seq<Element>, parent: nat, e: Element): (r: seq<Element>)
    requires parent < |arena|
    ensures |r| == |arena| + 1 && r[|arena|] == e
    ensures r[parent].children == arena[parent].children + [|arena|]
    ensures forall i :: 0 <= i < |arena| && i != parent ==> r[i] == arena[i]
  {
    arena[parent := arena[parent].(children := arena[parent].children + [|arena|])] + [e]
  }

  lemma AttachNewWellFormed(arena: seq<Element>, roots: seq<nat>, parent: nat, e: Element)
    requires WellFormed(arena, roots) && parent < |arena| && e.children == []
    ensures WellFormed(AttachNew(arena, parent, e), roots)
  {
    var r := AttachNew(arena, parent, e);
    forall i, k | 0 <= i < |r| && 0 <= k < |r[i].children|
      ensures i < r[i].children[k] < |r|
    {
      if i == parent && k == |arena[parent].children| {
        assert r[i].children[k] == |arena|;
      } else if i < |arena| {
        assert r[i].children[k] == arena[i].children[k];
      }
    }
  }

  /** The arena after the elements are created in order, each as the last
      child of parent. */
  function AttachAll(arena: seq<Element>, parent: nat, es: seq<Element>): (r: seq<Element>)
    requires parent < |arena|
    ensures |r| == |arena| + |es|
    decreases |es|
  {
    if |es| == 0 then arena
    else AttachNew(AttachAll(arena, parent, es[..|es| - 1]), parent, es[|es| - 1])
  }

  /** Creating one more element after the others attaches it last. */
  lemma AttachAllSnoc(arena: seq<Element>, parent: nat, es: seq<Element>, e: Element)
    requires parent < |arena|
    ensures AttachAll(arena, parent, es + [e]) == AttachNew(AttachAll(arena, parent, es), parent, e)
  {
    assert (es + [e])[..|es|] == es;
  }

  /** The handles from start on, n of them. */
  function Handles(start: nat, n: nat): (r: seq<nat>)
    ensures |r| == n && forall k :: 0 <= k < n ==> r[k] == start + k
  {
    seq(n, k requires 0 <= k < n => start + k)
  }

  /** The created elements follow the old ones in order, become the last
      children of parent in that order, and nothing else changes. */
  lemma {:induction false} AttachAllShape(arena: seq<Element>, parent: nat, es: seq<Element>)
    requires parent < |arena|
    ensures var r := AttachAll(arena, parent, es);
      r[..|arena|][parent := arena[parent]] == arena &&
      r[|arena|..] == es &&
      r[parent].children == arena[parent].children + Handles(|arena|, |es|) &&
      r[parent].(children := arena[parent].children) == arena[parent]
    decreases |es|
  {
    if |es| > 0 {
      AttachAllShape(arena, parent, es[..|es| - 1]);
      AttachNewShape(arena, parent, es, AttachAll(arena, parent, es[..|es| - 1]));
    } else {
      assert arena[..|arena|][parent := arena[parent]] == arena;
      assert Handles(|arena|, 0) == [];
    }
  }

  /** Creating the last of es after the others, q, keeps the shape
      AttachAllShape states. */
  lemma AttachNewShape(arena: seq<Element>, parent: nat, es: seq<Element>, q: seq<Element>)
    requires parent < |arena| && |es| > 0 && |q| == |arena| + |es| - 1
    requires q[..|arena|][parent := arena[parent]] == arena && q[|arena|..] == es[..|es| - 1]
    requires q[parent].children == arena[parent].children + Handles(|arena|, |es| - 1)
    requires q[parent].(children := arena[parent].children) == arena[parent]
    ensures var r := AttachNew(q, parent, es[|es| - 1]);
      r[..|arena|][parent := arena[parent]] == arena &&
      r[|arena|..] == es &&
      r[parent].children == arena[parent].children + Handles(|arena|, |es|) &&
      r[parent].(children := arena[parent].children) == arena[parent]
  {
    var r := AttachNew(q, parent, es[|es| - 1]);
    assert r[..|arena|][parent := arena[parent]] == arena by {
      forall i | 0 <= i < |arena| && i != parent ensures r[i] == arena[i] {
        assert q[..|arena|][parent := arena[parent]][i] == arena[i];
      }
    }
    assert r[|arena|..] == es by {
      forall k | 0 <= k < |es| - 1 ensures r[|arena| + k] == es[k] {
        assert q[|arena|..][k] == es[..|es| - 1][k];
      }
    }
    assert Handles(|arena|, |es|) == Handles(|arena|, |es| - 1) + [|q|];
  }

  lemma {:induction false} AttachAllWellFormed(arena: seq<Element>, roots: seq<nat>, parent: nat, es: seq<Element>)
    requires WellFormed(arena, roots) && parent < |arena|
    requires forall k :: 0 <= k < |es| ==> es[k].children == []
    ensures WellFormed(AttachAll(arena, parent, es), roots)
    decreases |es|
  {
    if |es| > 0 {
      AttachAllWellFormed(arena, roots, parent, es[..|es| - 1]);
      AttachNewWellFormed(AttachAll(arena, parent, es[..|es| - 1]), roots, parent, es[|es| - 1]);
    }
  }

  /** a1 is a0 grown: the old elements keep their names and only gain
      children, and any new elements come after them. Attributes may be
      replaced. */
  predicate ArenaExtends(a0: seq<Element>, a1: seq<Element>)
  {
    |a0| <= |a1| &&
    forall i :: 0 <= i < |a0| ==>
      a1[i].name == a0[i].name && a1[i].namespaceUri == a0[i].namespaceUri && a0[i].children <= a1[i].children
  }

  lemma ArenaExtendsTransitive(a0: seq<Element>, a1: seq<Element>, a2: seq<Element>)
    requires ArenaExtends(a0, a1) && ArenaExtends(a1, a2)
    ensures ArenaExtends(a0, a2)
  {
    forall i | 0 <= i < |a0| ensures a0[i].children <= a2[i].children {
      assert a0[i].children <= a1[i].children <= a2[i].children;
    }
  }

  /** Appending elements, and giving one old element one more child, only
      adds children and elements. */
  lemma AdoptExtends(a0: seq<Element>, tail: seq<Element>, adopted: Option<(nat, nat)>)
    requires adopted.Some? ==> adopted.value.0 < |a0|
    ensures var a1 := match adopted
        case None => a0
        case Some((h, x)) => a0[h := a0[h].(children := a0[h].children + [x])];
      ArenaExtends(a0, a1 + tail)
  {
  }

  /** Attaching new elements only adds children and elements. */
  lemma AttachAllExtends(arena: seq<Element>, parent: nat, es: seq<Element>)
    requires parent < |arena|
    ensures ArenaExtends(arena, AttachAll(arena, parent, es))
  {
    var r := AttachAll(arena, parent, es);
    AttachAllShape(arena, parent, es);
    forall i | 0 <= i < |arena| && i != parent ensures r[i] == arena[i] {
      assert r[..|arena|][parent := arena[parent]][i] == arena[i];
    }
  }

  // ---------------------------------------------------------------------
  // The triple store

  predicate DistinctUris(store: seq<NamedGraph>)
  {
    forall i, j :: 0 <= i < j < |store| ==> store[i].uri != store[j].uri
  }

  function GraphIndex(store: seq<NamedGraph>, uri: string): (r: Option<nat>)
    ensures r.Some? ==> r.value < |store| && store[r.value].uri == uri
    ensures r.None? ==> forall i :: 0 <= i < |store| ==> store[i].uri != uri
  {
    if |store| == 0 then None
    else if store[|store| - 1].uri == uri then Some(|store| - 1)
    else GraphIndex(store[..|store| - 1], uri)
  }

  /** The documents the store holds under a URI. */
  function GraphDocuments(store: seq<NamedGraph>, uri: string): seq<Document>
  {
    match GraphIndex(store, uri)
    case Some(i) => store[i].documents
    case None => []
  }

  /** TripleStore.Add(g, true): a graph whose URI is already present is
      merged into that graph, any other is added at the end. */
  function StoreAdd(store: seq<NamedGraph>, uri: string, doc: Document): seq<NamedGraph>
  {
    match GraphIndex(store, uri)
    case Some(i) => store[i := store[i].(documents := store[i].documents + [doc])]
    case None => store + [NamedGraph(uri, [doc])]
  }

  /** Seen as a map from URI to documents, adding extends exactly the
      graph of the given URI, and URIs stay distinct. */
  lemma StoreAddExtendsOneGraph(store: seq<NamedGraph>, uri: string, doc: Document, u: string)
    requires DistinctUris(store)
    ensures DistinctUris(StoreAdd(store, uri, doc))
    ensures GraphDocuments(StoreAdd(store, uri, doc), u)
            == if u == uri then GraphDocuments(store, u) + [doc] else GraphDocuments(store, u)
  {
    var r := StoreAdd(store, uri, doc);
    assert forall i :: 0 <= i < |store| ==> r[i].uri == store[i].uri;
    match GraphIndex(r, u)
    case Some(j) =>
      if j < |store| {
        assert GraphIndex(store, u) == Some(j);
      }
    case None =>
  }

  // ---------------------------------------------------------------------
  // Formats and file names

  /** A named graph needs TriG or NQuads; any other format becomes TriG. */
  function GraphFormat(f: RdfFormat): (r: RdfFormat)
    ensures r == TriG || r == NQuads
    ensures f == TriG || f == NQuads ==> r == f
  {
    if f != TriG && f != NQuads then TriG else f
  }

  function Extension(f: RdfFormat): string
  {
    match f
    case N3 => ".n3"
    case NTriples => ".nt"
    case RdfXml => ".rdf"
    case TriG => ".trig"
    case Turtle => ".ttl"
    case NQuads => ".nq"
  }

  /** Each format has its own lower-case extension. */
  lemma ExtensionsDistinct(f: RdfFormat, g: RdfFormat)
    ensures ToLower(Extension(f)) == Extension(f)
    ensures f != g ==> Extension(f) != Extension(g)
  {
    var e := Extension(f);
    assert ToLower(e) == e by {
      assert forall i :: 0 <= i < |e| ==> !('A' <= e[i] <= 'Z');
    }
    if f != g {
      assert Extension(f)[1..] != Extension(g)[1..];
    }
  }

  /** The position of the last c in s. */
  function LastIndexOf(s: string, c: char): (r: Option<nat>)
    ensures r.Some? ==> r.value < |s| && s[r.value] == c && c !in s[r.value + 1..]
    ensures r.None? ==> c !in s
  {
    if |s| == 0 then None
    else if s[|s| - 1] == c then Some(|s| - 1)
    else
      var r := LastIndexOf(s[..|s| - 1], c);
      assert r.Some? ==> s[r.value + 1..] == s[..|s| - 1][r.value + 1..] + [s[|s| - 1]];
      assert s == s[..|s| - 1] + [s[|s| - 1]];
      r
  }

  /** The directory part of a path, standing in for FileInfo.DirectoryName:
      the text before the last '/', "/" when that is the only one, and ""
      when there is none. Only '/' separates directories here, and a
      relative path is taken as it is: FileInfo would first resolve it
      against the working directory, which is outside this model. */
  function DirectoryName(path: string): string
  {
    match LastIndexOf(path, '/')
    case Some(i) => if i == 0 then "/" else path[..i]
    case None => ""
  }

  /** The file name without its extension, standing in for
      Path.GetFileNameWithoutExtension: the text after the last '/', up to
      its last '.'. Only '/' separates directories here. */
  function FileStem(path: string): string
  {
    var name := match LastIndexOf(path, '/') case Some(i) => path[i + 1..] case None => path;
    match LastIndexOf(name, '.') case Some(j) => name[..j] case None => name
  }

  /** Path.Combine of a directory and a file name. */
  function Combine(directory: string, file: string): (r: string)
    ensures EndsWith(r, file)
  {
    if directory == "" then file
    else if directory[|directory| - 1] == '/' then directory + file
    else directory + "/" + file
  }

  /** GetFilePathBasedOnFormat: the output path, with the format's extension
      in place of its own unless it already ends (ignoring case) with it. */
  function FilePathFor(outputPath: string, f: RdfFormat): string
  {
    var extension := Extension(f);
    if EndsWith(ToLower(outputPath), extension) then outputPath
    else Combine(DirectoryName(outputPath), FileStem(outputPath) + extension)
  }

  lemma LowerKeepsSuffix(s: string, suffix: string)
    requires EndsWith(s, suffix) && ToLower(suffix) == suffix
    ensures EndsWith(ToLower(s), suffix)
  {
    var t := ToLower(s)[|s| - |suffix|..];
    assert forall i :: 0 <= i < |suffix| ==> t[i] == LowerChar(suffix[i]);
  }

  /** The file path always ends, ignoring case, with the format's extension,
      so asking again gives the same path. */
  lemma FilePathHasExtension(outputPath: string, f: RdfFormat)
    ensures EndsWith(ToLower(FilePathFor(outputPath, f)), Extension(f))
    ensures FilePathFor(FilePathFor(outputPath, f), f) == FilePathFor(outputPath, f)
  {
    FilePathEndsWithExtension(outputPath, f);
  }

  lemma FilePathEndsWithExtension(outputPath: string, f: RdfFormat)
    ensures EndsWith(ToLower(FilePathFor(outputPath, f)), Extension(f))
  {
    var extension := Extension(f);
    if !EndsWith(ToLower(outputPath), extension) {
      ExtensionsDistinct(f, f);
      CombinedEndsWith(DirectoryName(outputPath), FileStem(outputPath), extension);
    }
  }

  /** A path combined from any directory and a file name stem + extension
      ends, ignoring case, with a lower-case extension. */
  lemma CombinedEndsWith(directory: string, stem: string, extension: string)
    requires ToLower(extension) == extension
    ensures EndsWith(ToLower(Combine(directory, stem + extension)), extension)
  {
    var file := stem + extension;
    var r := Combine(directory, file);
    AppendedSuffix(stem, extension);
    SuffixOfSuffix(r, file, extension);
    LowerKeepsSuffix(r, extension);
  }

  lemma SuffixOfSuffix(r: string, file: string, extension: string)
    requires EndsWith(r, file) && EndsWith(file, extension)
    ensures EndsWith(r, extension)
  {
    assert r[|r| - |extension|..] == file[|file| - |extension|..];
  }

  /** A prefix that SetAttribute("xmlns:" + prefix, uri) can declare. */
  predicate Declarable(prefix: string)
  {
    prefix != "" && NameChars(prefix)
  }

  /** Every prefix of the table, in order, is declarable. */
  predicate AllDeclarable(ns: NamespaceTable)
  {
    |ns| == 0 || (Declarable(ns[0].0) && AllDeclarable(ns[1..]))
  }

  /** What the loop of SetAttribute("xmlns:" + prefix, uri) over the table
      throws: the exception of the first prefix, in table order, that is not
      a name. */
  function XmlnsFailure(ns: NamespaceTable): (r: Option<Exception>)
    ensures r.None? <==> AllDeclarable(ns)
    ensures r.Some? ==>
      exists i :: 0 <= i < |ns| && !Declarable(ns[i].0) && r == QualifiedNameCheck("xmlns:" + ns[i].0) &&
        forall j :: 0 <= j < i ==> Declarable(ns[j].0)
  {
    if |ns| == 0 then None
    else
      XmlnsNameOf(ns[0].0);
      if QualifiedNameCheck("xmlns:" + ns[0].0).Some? then QualifiedNameCheck("xmlns:" + ns[0].0)
      else
        var r := XmlnsFailure(ns[1..]);
        assert forall i :: 1 <= i < |ns| ==> ns[i] == ns[1..][i - 1];
        if r.Some? then
          var i :| 0 <= i < |ns[1..]| && !Declarable(ns[1..][i].0) && r == QualifiedNameCheck("xmlns:" + ns[1..][i].0) &&
            forall j :: 0 <= j < i ==> Declarable(ns[1..][j].0);
          assert ns[i + 1] == ns[1..][i];
          r
        else r
  }

  /** What CreateElement(prefix, localName, namespaces[prefix]), and
      CreateNode(XmlNodeType.Element, prefix, localName, ...) which calls
      it, throw: the dictionary lookup, an argument, comes first. The same
      holds for CreateAttribute(prefix, localName, namespaces[prefix]). */
  function ElementFailure(ns: NamespaceTable, prefix: string, localName: string): (r: Option<Exception>)
    ensures r.None? <==> HasPrefix(ns, prefix) && NameCheck(prefix, localName).None?
    ensures !HasPrefix(ns, prefix) ==> r == Some(KeyNotFound(prefix))
  {
    if !HasPrefix(ns, prefix) then Some(KeyNotFound(prefix)) else NameCheck(prefix, localName)
  }

  /** What CreateElement(prefix + ":" + localName, namespaces[prefix])
      throws. */
  function QualifiedElementFailure(ns: NamespaceTable, prefix: string, localName: string): (r: Option<Exception>)
    ensures r.None? <==> HasPrefix(ns, prefix) && QualifiedNameCheck(prefix + ":" + localName).None?
    ensures !HasPrefix(ns, prefix) ==> r == Some(KeyNotFound(prefix))
  {
    if !HasPrefix(ns, prefix) then Some(KeyNotFound(prefix)) else QualifiedNameCheck(prefix + ":" + localName)
  }

  /** What AddPredicateAndObject throws: the predicate element first, then
      the attribute naming the object. */
  function ObjectFailure(ns: NamespaceTable, predicatePrefix: string, predicateValue: string,
                         objectClassPrefix: string, objectClassUri: string): (r: Option<Exception>)
    ensures r.None? <==> ElementFailure(ns, predicatePrefix, predicateValue).None? &&
                         ElementFailure(ns, objectClassPrefix, objectClassUri).None?
    ensures ElementFailure(ns, predicatePrefix, predicateValue).Some? ==>
      r == ElementFailure(ns, predicatePrefix, predicateValue)
  {
    if ElementFailure(ns, predicatePrefix, predicateValue).Some? then ElementFailure(ns, predicatePrefix, predicateValue)
    else ElementFailure(ns, objectClassPrefix, objectClassUri)
  }

  // ---------------------------------------------------------------------
  // The buffer

  /** The element AddBnode creates for a blank node named "ns:Type", or its
      error. */
  function BlankNodeElement(ns: NamespaceTable, name: string): (r: Result<Element>)
    ensures r.Ok? ==> r.value.children == []
    ensures r.Ok? <==>
      |Split(name, ':')| == 2 && QualifiedElementFailure(ns, Split(name, ':')[0], Split(name, ':')[1]).None?
    ensures |Split(name, ':')| != 2 ==> r == Err(BadBlankNodeName(name))
    ensures |Split(name, ':')| == 2 && !HasPrefix(ns, Split(name, ':')[0]) ==> r == Err(KeyNotFound(Split(name, ':')[0]))
    ensures |Split(name, ':')| == 2 && r.Err? ==>
      r.error == QualifiedElementFailure(ns, Split(name, ':')[0], Split(name, ':')[1]).value
    ensures r.Ok? ==>
      r.value.name == Split(name, ':')[0] + ":" + Split(name, ':')[1] &&
      Lookup(ns, Split(name, ':')[0]) == Some(r.value.namespaceUri)
  {
    var parts := Split(name, ':');
    if |parts| != 2 then Err(BadBlankNodeName(name))
    else if QualifiedElementFailure(ns, parts[0], parts[1]).Some? then Err(QualifiedElementFailure(ns, parts[0], parts[1]).value)
    else Ok(Element.Element(parts[0] + ":" + parts[1], Lookup(ns, parts[0]).value, [], "", []))
  }

  class RdfOutput {
    var outputPath: string
    var namespaces: NamespaceTable
    var format: RdfFormat
    var entityLines: seq<string>
    var rootAttributes: seq<Attribute>
    var arena: seq<Element>
    var roots: seq<nat>
    var store: Option<seq<NamedGraph>>

    ghost predicate Valid()
      reads this
    {
      DistinctPrefixes(namespaces) && HasPrefix(namespaces, "rdf") && AllDeclarable(namespaces) &&
      WellFormed(arena, roots) &&
      (store.Some? ==> DistinctUris(store.value))
    }

    /** The document being built. */
    function CurrentDocument(): Document
      reads this
    {
      Document(entityLines, rootAttributes, arena, roots)
    }

    function Rdf(): string
      reads this
      requires Valid()
    {
      Lookup(namespaces, "rdf").value
    }

    constructor(outputPath: string, namespaces: NamespaceTable, outputFormat: RdfFormat)
      requires DistinctPrefixes(namespaces) && HasPrefix(namespaces, "rdf") && AllDeclarable(namespaces)
      ensures Valid()
      ensures this.outputPath == outputPath && this.namespaces == namespaces && format == outputFormat
      ensures entityLines == EntityLines(namespaces) && rootAttributes == XmlnsDeclarations(namespaces)
      ensures roots == [] && store == None
    {
      this.outputPath := outputPath;
      this.namespaces := namespaces;
      format := RdfXml;
      entityLines := [];
      rootAttributes := [];
      arena := [];
      roots := [];
      store := None;
      new;
      InitialiseRdfOutput(namespaces);
      format := outputFormat;
    }

    /** The constructor without a format writes RDF/XML. */
    constructor WithDefaultFormat(outputPath: string, namespaces: NamespaceTable)
      requires DistinctPrefixes(namespaces) && HasPrefix(namespaces, "rdf") && AllDeclarable(namespaces)
      ensures Valid()
      ensures this.outputPath == outputPath && this.namespaces == namespaces && format == RdfXml
      ensures entityLines == EntityLines(namespaces) && rootAttributes == XmlnsDeclarations(namespaces)
      ensures roots == [] && store == None
    {
      this.outputPath := outputPath;
      this.namespaces := namespaces;
      format := RdfXml;
      entityLines := [];
      rootAttributes := [];
      arena := [];
      roots := [];
      store := None;
      new;
      InitialiseRdfOutput(namespaces);
    }

    /** A fresh document: one entity and one xmlns: declaration per
        namespace, and an empty root. */
    method InitialiseRdfOutput(ns: NamespaceTable)
      requires DistinctPrefixes(ns) && HasPrefix(ns, "rdf") && AllDeclarable(ns)
      requires WellFormed(arena, roots) && (store.Some? ==> DistinctUris(store.value))
      modifies this`namespaces, this`entityLines, this`rootAttributes, this`roots
      ensures Valid()
      ensures namespaces == ns && entityLines == EntityLines(ns) && rootAttributes == XmlnsDeclarations(ns)
      ensures roots == []
    {
      namespaces := ns;
      entityLines := BuildEntityLines(ns);
      roots := [];
      rootAttributes := BuildXmlnsDeclarations(ns);
    }

    method SetNamespaces(ns: NamespaceTable)
      requires Valid() && DistinctPrefixes(ns) && HasPrefix(ns, "rdf") && AllDeclarable(ns)
      modifies this`namespaces
      ensures Valid() && namespaces == ns
    {
      namespaces := ns;
    }

    /** Gives an existing resource its rdf:about, replacing any earlier one. */
    method AddIdentifierForResource(resourceNode: nat, prefix: string, uri: string)
      requires Valid() && resourceNode < |arena|
      modifies this`arena
      ensures Valid()
      ensures arena == old(arena)[resourceNode := old(arena)[resourceNode].(
                attributes := AppendAttribute(old(arena)[resourceNode].attributes, About(Rdf(), prefix, uri)))]
      ensures ArenaExtends(old(arena), arena)
    {
      var e := arena[resourceNode];
      arena := arena[resourceNode := e.(attributes := AppendAttribute(e.attributes, About(Rdf(), prefix, uri)))];
      assert forall i :: 0 <= i < |arena| ==> arena[i].children == old(arena)[i].children;
    }

    /** Appends a childless element to the root and returns its handle. */
    method AppendToRoot(e: Element) returns (h: nat)
      requires Valid() && e.children == []
      modifies this`arena, this`roots
      ensures Valid()
      ensures h == |old(arena)| && arena == old(arena) + [e] && roots == old(roots) + [h]
    {
      h := |arena|;
      arena := arena + [e];
      roots := roots + [h];
    }

    method AddResourceWithoutIdentifier() returns (h: nat)
      requires Valid()
      modifies this`arena, this`roots
      ensures Valid()
      ensures h == |old(arena)| && arena == old(arena) + [Description(Rdf(), [])] && roots == old(roots) + [h]
    {
      h := AppendToRoot(Description(Rdf(), []));
    }

    method AddResourceWithIdentifier(prefix: string, uri: string) returns (h: nat)
      requires Valid()
      modifies this`arena, this`roots
      ensures Valid()
      ensures h == |old(arena)| && roots == old(roots) + [h]
      ensures arena == old(arena) + [Description(Rdf(), [About(Rdf(), prefix, uri)])]
    {
      h := AppendToRoot(Description(Rdf(), [About(Rdf(), prefix, uri)]));
    }

    method AddResource() returns (h: nat)
      requires Valid()
      modifies this`arena, this`roots
      ensures Valid()
      ensures h == |old(arena)| && arena == old(arena) + [Description(Rdf(), [])] && roots == old(roots) + [h]
    {
      h := AppendToRoot(Description(Rdf(), []));
    }

    /** Creates a childless element as the last child of parent. */
    method AppendNew(parent: nat, e: Element)
      requires Valid() && parent < |arena| && e.children == []
      modifies this`arena
      ensures Valid() && arena == AttachNew(old(arena), parent, e)
    {
      AttachNewWellFormed(arena, roots, parent, e);
      arena := AttachNew(arena, parent, e);
    }

    /** A predicate whose object is a resource; both prefixes must be known,
        and nothing changes when one is not. */
    method AddPredicateAndObject(subjectNode: nat, predicatePrefix: string, predicateValue: string,
                                 objectClassPrefix: string, objectClassUri: string,
                                 objectPrefix: string, objectUri: string) returns (r: Result<()>)
      requires Valid() && subjectNode < |arena|
      modifies this`arena
      ensures Valid()
      ensures var f := ObjectFailure(namespaces, predicatePrefix, predicateValue, objectClassPrefix, objectClassUri);
        (r.Err? <==> f.Some?) && (r.Err? ==> r.error == f.value && arena == old(arena))
      ensures r.Ok? ==>
        arena == AttachNew(old(arena), subjectNode,
          PredicateObjectElement(predicatePrefix + ":" + predicateValue, Lookup(namespaces, predicatePrefix).value,
                                 objectClassPrefix + ":" + objectClassUri, Lookup(namespaces, objectClassPrefix).value,
                                 objectPrefix, objectUri))
    {
      var predicateUri := Lookup(namespaces, predicatePrefix);
      if predicateUri.None? {
        return Err(KeyNotFound(predicatePrefix));
      }
      var bad := NameCheck(predicatePrefix, predicateValue);
      if bad.Some? {
        return Err(bad.value);
      }
      var attributeUri := Lookup(namespaces, objectClassPrefix);
      if attributeUri.None? {
        return Err(KeyNotFound(objectClassPrefix));
      }
      bad := NameCheck(objectClassPrefix, objectClassUri);
      if bad.Some? {
        return Err(bad.value);
      }
      AppendNew(subjectNode, PredicateObjectElement(predicatePrefix + ":" + predicateValue, predicateUri.value,
                                                    objectClassPrefix + ":" + objectClassUri, attributeUri.value,
                                                    objectPrefix, objectUri));
      r := Ok(());
    }

    method AddPredicateAndLiteral(subjectNode: nat, predicatePrefix: string, predicateValue: string,
                                  literal: string) returns (r: Result<()>)
      requires Valid() && subjectNode < |arena|
      modifies this`arena
      ensures Valid()
      ensures var f := QualifiedElementFailure(namespaces, predicatePrefix, predicateValue);
        (r.Err? <==> f.Some?) && (r.Err? ==> r.error == f.value && arena == old(arena))
      ensures r.Ok? ==> arena == AttachNew(old(arena), subjectNode,
        Element(predicatePrefix + ":" + predicateValue, Lookup(namespaces, predicatePrefix).value, [], literal, []))
    {
      var predicateUri := Lookup(namespaces, predicatePrefix);
      if predicateUri.None? {
        return Err(KeyNotFound(predicatePrefix));
      }
      var bad := QualifiedNameCheck(predicatePrefix + ":" + predicateValue);
      if bad.Some? {
        return Err(bad.value);
      }
      AppendNew(subjectNode, Element(predicatePrefix + ":" + predicateValue, predicateUri.value, [], literal, []));
      r := Ok(());
    }

    method AddPredicateAndLiteralWithType(subjectNode: nat, predicatePrefix: string, predicateValue: string,
                                          literal: string, typeUri: string) returns (r: Result<()>)
      requires Valid() && subjectNode < |arena|
      modifies this`arena
      ensures Valid()
      ensures var f := ElementFailure(namespaces, predicatePrefix, predicateValue);
        (r.Err? <==> f.Some?) && (r.Err? ==> r.error == f.value && arena == old(arena))
      ensures r.Ok? ==> arena == AttachNew(old(arena), subjectNode,
        TypedLiteralElement(predicatePrefix + ":" + predicateValue, Lookup(namespaces, predicatePrefix).value,
                            Rdf(), literal, typeUri))
    {
      var predicateUri := Lookup(namespaces, predicatePrefix);
      if predicateUri.None? {
        return Err(KeyNotFound(predicatePrefix));
      }
      var bad := NameCheck(predicatePrefix, predicateValue);
      if bad.Some? {
        return Err(bad.value);
      }
      AppendNew(subjectNode, TypedLiteralElement(predicatePrefix + ":" + predicateValue, predicateUri.value,
                                                 Rdf(), literal, typeUri));
      r := Ok(());
    }

    method AddPredicateAndLiteralWithLanguage(subjectNode: nat, predicatePrefix: string, predicateValue: string,
                                              literal: string, languageCode: string) returns (r: Result<()>)
      requires Valid() && subjectNode < |arena|
      modifies this`arena
      ensures Valid()
      ensures var f := ElementFailure(namespaces, predicatePrefix, predicateValue);
        (r.Err? <==> f.Some?) && (r.Err? ==> r.error == f.value && arena == old(arena))
      ensures r.Ok? ==> arena == AttachNew(old(arena), subjectNode,
        LanguageLiteralElement(predicatePrefix + ":" + predicateValue, Lookup(namespaces, predicatePrefix).value,
                               literal, languageCode))
    {
      var predicateUri := Lookup(namespaces, predicatePrefix);
      if predicateUri.None? {
        return Err(KeyNotFound(predicatePrefix));
      }
      var bad := NameCheck(predicatePrefix, predicateValue);
      if bad.Some? {
        return Err(bad.value);
      }
      AppendNew(subjectNode, LanguageLiteralElement(predicatePrefix + ":" + predicateValue, predicateUri.value,
                                                    literal, languageCode));
      r := Ok(());
    }

    /** The overload with an xsd literal type: the literal becomes the value
        of an attribute named after the type, and the element has no text. */
    method AddPredicateAndLiteralWithXsdType(subjectNode: nat, predicatePrefix: string, predicateValue: string,
                                             literal: string, literalType: LiteralType) returns (r: Result<()>)
      requires Valid() && subjectNode < |arena|
      modifies this`arena
      ensures Valid()
      ensures r.Ok? <==> ElementFailure(namespaces, predicatePrefix, predicateValue).None? && HasPrefix(namespaces, "xsd")
      ensures ElementFailure(namespaces, predicatePrefix, predicateValue).Some? ==>
        r == Err(ElementFailure(namespaces, predicatePrefix, predicateValue).value)
      ensures ElementFailure(namespaces, predicatePrefix, predicateValue).None? && !HasPrefix(namespaces, "xsd") ==>
        r == Err(KeyNotFound("xsd"))
      ensures r.Err? ==> arena == old(arena)
      ensures r.Ok? ==> arena == AttachNew(old(arena), subjectNode,
        Element(predicatePrefix + ":" + predicateValue, Lookup(namespaces, predicatePrefix).value,
                [Attribute(XsdAttributeName(literalType), Lookup(namespaces, "xsd").value, Text(literal))], "", []))
    {
      var predicateUri := Lookup(namespaces, predicatePrefix);
      if predicateUri.None? {
        return Err(KeyNotFound(predicatePrefix));
      }
      var bad := NameCheck(predicatePrefix, predicateValue);
      if bad.Some? {
        return Err(bad.value);
      }
      var xsd := Lookup(namespaces, "xsd");
      if xsd.None? {
        return Err(KeyNotFound("xsd"));
      }
      AppendNew(subjectNode, Element(predicatePrefix + ":" + predicateValue, predicateUri.value,
                                     [Attribute(XsdAttributeName(literalType), xsd.value, Text(literal))], "", []));
      r := Ok(());
    }

    /** Creates, without attaching it, the element of a blank node named
        "ns:Type"; any other shape of name is an error. */
    method AddBnode(bNodeName: string) returns (r: Result<nat>)
      requires Valid()
      modifies this`arena
      ensures Valid()
      ensures var e := BlankNodeElement(namespaces, bNodeName);
        (e.Err? ==> r == Err(e.error) && arena == old(arena)) &&
        (e.Ok? ==> r == Ok(|old(arena)|) && arena == old(arena) + [e.value])
    {
      var parts := Split(bNodeName, ':');
      if |parts| != 2 {
        return Err(BadBlankNodeName(bNodeName));
      }
      var bad := QualifiedElementFailure(namespaces, parts[0], parts[1]);
      if bad.Some? {
        assert BlankNodeElement(namespaces, bNodeName) == Err(bad.value);
        return Err(bad.value);
      }
      var e := Element(parts[0] + ":" + parts[1], Lookup(namespaces, parts[0]).value, [], "", []);
      assert BlankNodeElement(namespaces, bNodeName) == Ok(e);
      AppendChildless(arena, roots, e);
      r := Ok(|arena|);
      arena := arena + [e];
    }

    /** XmlNode.AppendChild for a parentless element newer than its new parent. */
    method AppendChild(parent: nat, child: nat)
      requires Valid() && parent < child < |arena| && Detached(arena, roots, child)
      modifies this`arena
      ensures Valid()
      ensures arena == old(arena)[parent := old(arena)[parent].(children := old(arena)[parent].children + [child])]
    {
      arena := arena[parent := arena[parent].(children := arena[parent].children + [child])];
    }

    /** Seals the document as a graph named by the URI: the format becomes one
        that holds named graphs (even when the URI is then refused), the
        graph joins the store, and the document starts afresh. */
    method AddNamedGraphToCurrentNodes(namedGraphUri: string, isAbsoluteUri: string -> bool) returns (r: Result<()>)
      requires Valid()
      modifies this`format, this`namespaces, this`store, this`entityLines, this`rootAttributes, this`roots
      ensures Valid() && namespaces == old(namespaces)
      ensures format == GraphFormat(old(format))
      ensures r.Ok? <==> isAbsoluteUri(namedGraphUri)
      ensures r.Err? ==> r.error == UriFormat(namedGraphUri) && store == old(store) &&
                         CurrentDocument() == old(CurrentDocument())
      ensures r.Ok? ==>
        store == Some(StoreAdd(old(store).GetOr([]), namedGraphUri, old(CurrentDocument()))) &&
        entityLines == EntityLines(namespaces) && rootAttributes == XmlnsDeclarations(namespaces) && roots == []
    {
      format := GraphFormat(format);
      if !isAbsoluteUri(namedGraphUri) {
        return Err(UriFormat(namedGraphUri));
      }
      SealInto(namedGraphUri);
      r := Ok(());
    }

    /** Adds the document to the store under the URI and starts afresh. */
    method SealInto(namedGraphUri: string)
      requires Valid()
      modifies this`namespaces, this`store, this`entityLines, this`rootAttributes, this`roots
      ensures Valid() && namespaces == old(namespaces)
      ensures store == Some(StoreAdd(old(store).GetOr([]), namedGraphUri, old(CurrentDocument())))
      ensures entityLines == EntityLines(namespaces) && rootAttributes == XmlnsDeclarations(namespaces) && roots == []
    {
      var graphs := store.GetOr([]);
      var doc := CurrentDocument();
      StoreAddExtendsOneGraph(graphs, namedGraphUri, doc, namedGraphUri);
      var sealed := StoreAdd(graphs, namedGraphUri, doc);
      assert DistinctUris(sealed);
      store := Some(sealed);
      ghost var before := store;
      assert WellFormed(arena, roots);
      InitialiseRdfOutput(namespaces);
      assert store == before;
    }

    function GetFilePathBasedOnFormat(): string
      reads this
    {
      FilePathFor(outputPath, format)
    }
  }
}
