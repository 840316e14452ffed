// The mapping interpreter (RDFer/RDFer.cs): Start, the tag dispatch of
// ExecConfig and the handlers of the configuration elements, which walk the
// configuration tree against the data document and build the output through
// RdfOutput. The pure functions first say what each handler computes; the
// class then does it step by step, each method proved against them.

module Rdfer {
  import opened Wrappers
  import opened DotNet
  import opened RdfOutputs
  import opened RdferText
  import opened RdferConfig
  import opened RdferValues
  import opened RdferCommands
  import opened Modifiers
  import opened Counters
  import opened UniqueIdentifiers

  // ---------------------------------------------------------------------
  // What the handlers compute

  /** The modifier an element names in its modifier attribute, if any. */
  function ModifierOf(node: ConfigNode, providers: seq<Provider>): Result<Option<Modifier>>
    requires node.Element?
  {
    if "modifier" !in node.attributes then Ok(None)
    else
      var m :- ModifierNamed(node.attributes["modifier"], providers);
      Ok(Some(m))
  }

  /** The handlers with no catch of their own. */
  predicate Escapes(h: Handler)
  {
    h in {Handler.DoError, Handler.DoCounter, Handler.DoUniqueidentifier, Handler.DoIdentifier,
          Handler.DoUsenamedmapping}
  }

  /** The error a handler without its own catch lets escape. */

  function Thrown(r: Result<()>): (e: Option<Exception>)
    ensures e.Some? <==> r.Err?
  {
    if r.Err? then Some(r.error) else None
  }

  /** What a <counter> leaves behind: the counters RunCounter gives and no
      error, or the counters as they were and the error that escapes. */
  predicate CounterEffect(node: ConfigNode, before: map<string, CounterState>, after: map<string, CounterState>,
                          escaped: Option<Exception>)
    requires node.Element? && CountersInRange(before)
  {
    match CounterCommandOf(node)
    case Err(e) => escaped == Some(e) && after == before
    case Ok(cmd) =>
      match RunCounter(before, cmd)
      case Err(e) => escaped == Some(e) && after == before
      case Ok(table) => escaped.None? && after == table
  }

  /** What a <uniqueidentifier> leaves behind: the name bound to the next
      generated id, or the variables as they were (with the error that
      escapes, if any). */
  predicate IdentifierEffect(node: ConfigNode, before: Env, after: Env, next: string, drawn: nat, drawnAfter: nat,
                             escaped: Option<Exception>)
    requires node.Element?
  {
    match IdentifierCommandOf(node)
    case Err(e) => escaped == Some(e) && after == before && drawnAfter == drawn
    case Ok(None) => escaped.None? && after == before && drawnAfter == drawn
    case Ok(Some(name)) =>
      escaped.None? && drawnAfter == drawn + 1 &&
      after.ids == before.ids[name := next] && after.counters == before.counters
  }

  /** None of the nodes selects an unknown handler; stated from the last
      node back, so that a walk extends it one node at a time. */
  predicate NoneUnknown(nodes: seq<ConfigNode>)
  {
    |nodes| == 0 ||
    (NoneUnknown(nodes[..|nodes| - 1]) && !NodeDispatch(nodes[|nodes| - 1]).Fail?)
  }

  /** NoneUnknown says of every node that its tag selects a handler or is
      skipped. */
  lemma {:induction false} NoneUnknownEach(nodes: seq<ConfigNode>)
    requires NoneUnknown(nodes)
    ensures forall k :: 0 <= k < |nodes| ==> !NodeDispatch(nodes[k]).Fail?
  {
    if |nodes| > 0 {
      var front := nodes[..|nodes| - 1];
      NoneUnknownEach(front);
      forall k | 0 <= k < |nodes|
        ensures !NodeDispatch(nodes[k]).Fail?
      {
        if k < |front| {
          assert nodes[k] == front[k];
        }
      }
    }
  }

  /** A child whose tag ends the walk of its siblings when it fails: a tag
      with no handler, or a handler that has no catch of its own. */
  predicate MayEndSiblings(n: ConfigNode)
  {
    match NodeDispatch(n)
    case Skip => false
    case Fail(_) => true
    case Run(h) => Escapes(h)
  }

  /** A node selected by a name that does not start with '#' is an element:
      the other kinds of node have names that start with '#'. */
  lemma NamedChildIsElement(nodes: seq<ConfigNode>, name: string, c: ConfigNode)
    requires |name| > 0 && name[0] != '#' && c in ChildrenNamed(nodes, name)
    ensures c.Element?
  {
    ChildrenNamedMembers(nodes, name);
  }

  // <identifier value="..." modifier="...">

  /** The identifier an <identifier> gives its resource, as a namespace
      prefix and a short URI: its value attribute must give exactly one
      value, which SanitiseUri cleans and ShortUri shortens against the
      namespace table. */
  function IdentifierOf(env: Env, d: DataDocument, context: DataNode, node: ConfigNode,
                        ns: NamespaceTable, providers: seq<Provider>, rt: Runtime): (r: Result<(string, string)>)
    requires node.Element?
    ensures ModifierOf(node, providers).Err? ==> r == Err(ModifierOf(node, providers).error)
    ensures ModifierOf(node, providers).Ok? ==>
      var vs := GetValuesOf(env, d, context, node, "value", ModifierOf(node, providers).value, 1, 1, rt);
      (vs.Err? ==> r == Err(vs.error)) &&
      (vs.Ok? ==> |vs.value| == 1 && r == Ok(ShortUriOf(ns, SanitiseUriOf(vs.value[0]))))
  {
    var mod :- ModifierOf(node, providers);
    var vs :- GetValuesOf(env, d, context, node, "value", mod, 1, 1, rt);
    Ok(ShortUriOf(ns, SanitiseUriOf(vs[0])))
  }

  /** The modifier lookup the handlers share. */
  method GetModifier(node: ConfigNode, providers: seq<Provider>) returns (r: Result<Option<Modifier>>)
    requires node.Element?
    ensures r == ModifierOf(node, providers)
  {
    if "modifier" !in node.attributes {
      return Ok(None);
    }
    var m := GetModifierMethod(node.attributes["modifier"], providers);
    if m.Err? {
      return Err(m.error);
    }
    r := Ok(Some(m.value));
  }

  /** new UniqueIdentifier(name) followed by Generate(): a fresh identifier
      holding the id its seed gives. */
  method NewGenerated(name: string, seed: Seed) returns (id: UniqueIdentifier)
    ensures fresh(id) && id.name == name && id.uniqueId == GenerateUniqueId(seed) && id.uniqueId != ""
  {
    id := new UniqueIdentifier(name);
    id.Generate(seed);
  }

  /** The front half DoIdentifier and DoResource share: the modifier, the
      single value, SanitiseUri and ShortUri. */
  method ResolveIdentifier(env: Env, d: DataDocument, context: DataNode, node: ConfigNode,
                           ns: NamespaceTable, providers: seq<Provider>, rt: Runtime)
    returns (r: Result<(string, string)>)
    requires node.Element?
    ensures r == IdentifierOf(env, d, context, node, ns, providers, rt)
  {
    var mod := GetModifier(node, providers);
    if mod.Err? {
      return Err(mod.error);
    }
    var ids := GetValues(env, d, context, node, "value", mod.value, 1, 1, rt);
    if ids.Err? {
      return Err(ids.error);
    }
    // with min = max = 1 the loop over the values runs exactly once
    var id := SanitiseUri(ids.value[0]);
    var prefix, shortUri := ShortUri(ns, id);
    r := Ok((prefix, shortUri));
  }

  /** The identifier of a <resource>: that of its single <identifier>
      child, and none when it has no such child or more than one. */
  method ResourceIdentifier(env: Env, d: DataDocument, context: DataNode, node: ConfigNode,
                            ns: NamespaceTable, providers: seq<Provider>, rt: Runtime)
    returns (r: Result<Option<(string, string)>>)
    ensures var ids := ChildrenNamed(Children(node), "identifier");
      (|ids| == 1 ==>
        ids[0].Element? &&
        match IdentifierOf(env, d, context, ids[0], ns, providers, rt)
        case Err(e) => r == Err(e)
        case Ok(id) => r == Ok(Some(id))) &&
      (|ids| != 1 ==> r == Ok(None))
  {
    var identifiers := GetChildren(node, "identifier");
    if |identifiers| != 1 {
      return Ok(None);
    }
    NamedChildIsElement(Children(node), "identifier", identifiers[0]);
    var id := ResolveIdentifier(env, d, context, identifiers[0], ns, providers, rt);
    if id.Err? {
      return Err(id.error);
    }
    r := Ok(Some(id.value));
  }

  /** A prefix and a short URI stand for uri: the prefix is bound to the
      part of uri before the short form, or there is no prefix and the short
      form is uri itself. */
  predicate ExpandsTo(ns: NamespaceTable, short: (string, string), uri: string)
  {
    (Lookup(ns, short.0).Some? && Lookup(ns, short.0).value + short.1 == uri) ||
    (short.0 == "" && short.1 == uri)
  }

  /** An identifier stands for its one value as SanitiseUri cleans it, a URI
      made only of letters, digits and _ # - / : . */
  lemma IdentifierExpands(env: Env, d: DataDocument, context: DataNode, node: ConfigNode,
                          ns: NamespaceTable, providers: seq<Provider>, rt: Runtime)
    requires node.Element? && DistinctPrefixes(ns)
    ensures var r := IdentifierOf(env, d, context, node, ns, providers, rt);
      r.Ok? ==>
        ModifierOf(node, providers).Ok? &&
        exists v :: GetValuesOf(env, d, context, node, "value", ModifierOf(node, providers).value, 1, 1, rt) == Ok([v]) &&
          ExpandsTo(ns, r.value, SanitiseUriOf(v)) && AllUriChars(SanitiseUriOf(v))
  {
    var r := IdentifierOf(env, d, context, node, ns, providers, rt);
    if r.Ok? {
      var vs := GetValuesOf(env, d, context, node, "value", ModifierOf(node, providers).value, 1, 1, rt).value;
      var v := vs[0];
      assert vs == [v];
      ShortUriExpands(ns, SanitiseUriOf(v));
      SanitisedUriIsClean(v);
    }
  }

  // <triple>, <type>: the elements added under the subject

  /** One object value of a <triple>: SanitiseUri cleans it, nothing is
      added when only white space is left, and otherwise its short form
      becomes the rdf:resource of a predicate element. */
  function ObjectElement(ns: NamespaceTable, predName: string, predUri: string, v: string): (r: Option<Element>)
    ensures r.None? <==> IsBlank(SanitiseUriOf(v))
    ensures r.Some? ==> r.value.name == predName && r.value.namespaceUri == predUri && r.value.children == []
    ensures r.Some? ==> |r.value.attributes| == 1 && r.value.attributes[0].name == "rdf" + ":" + "resource"
  {
    var clean := SanitiseUriOf(v);
    if IsBlank(clean) then None
    else
      var short := ShortUriOf(ns, clean);
      Some(PredicateObjectElement(predName, predUri, "rdf" + ":" + "resource", Lookup(ns, "rdf").GetOr(""), short.0, short.1))
  }

  /** One literal value of a <triple>: nothing for an empty value; otherwise
      the trimmed value as SanitiseString leaves it, typed by the type
      attribute, or else tagged by the language attribute. */
  function LiteralElement(node: ConfigNode, rdf: string, predName: string, predUri: string, lit: string): (r: Option<Element>)
    requires node.Element?
    ensures r.None? <==> lit == ""
    ensures r.Some? ==> r.value.name == predName && r.value.namespaceUri == predUri && r.value.children == []
    ensures r.Some? && "type" !in node.attributes && "language" !in node.attributes ==>
      r.value.text == SanitiseStringOf(Trim(lit))
  {
    if lit == "" then None
    else
      var text := SanitiseStringOf(Trim(lit));
      if "type" in node.attributes then Some(TypedLiteralElement(predName, predUri, rdf, text, node.attributes["type"]))
      else if "language" in node.attributes then
        Some(LanguageLiteralElement(predName, predUri, text, node.attributes["language"]))
      else Some(Element.Element(predName, predUri, [], text, []))
  }

  /** How a <triple> turns one of its values into an element. */
  function TripleElement(node: ConfigNode, ns: NamespaceTable, predName: string, predUri: string,
                         isObject: bool, v: string): (r: Option<Element>)
    requires node.Element?
    ensures r.Some? ==> r.value.name == predName && r.value.namespaceUri == predUri && r.value.children == []
    ensures r.Some? && isObject ==> |r.value.attributes| == 1 && r.value.attributes[0].name == "rdf" + ":" + "resource"
  {
    if isObject then ObjectElement(ns, predName, predUri, v)
    else LiteralElement(node, Lookup(ns, "rdf").GetOr(""), predName, predUri, v)
  }

  /** The elements the values of a <triple> give, in order, passing over
      the values that give none. */
  function TripleElements(node: ConfigNode, ns: NamespaceTable, predName: string, predUri: string,
                          isObject: bool, vs: seq<string>): (r: seq<Element>)
    requires node.Element?
    ensures |r| <= |vs|
    decreases |vs|
  {
    if |vs| == 0 then []
    else
      var front := TripleElements(node, ns, predName, predUri, isObject, vs[..|vs| - 1]);
      match TripleElement(node, ns, predName, predUri, isObject, vs[|vs| - 1])
      case Some(e) => front + [e]
      case None => front
  }

  /** Every element is a childless predicate element named predName, and
      with isObject each carries the one rdf:resource attribute. */
  predicate PredicateElements(es: seq<Element>, predName: string, predUri: string, isObject: bool)
  {
    forall k :: 0 <= k < |es| ==>
      es[k].name == predName && es[k].namespaceUri == predUri && es[k].children == [] &&
      (isObject ==> |es[k].attributes| == 1 && es[k].attributes[0].name == "rdf" + ":" + "resource")
  }

  /** The elements of a <triple> are all predicate elements. */
  lemma {:induction false} TripleElementsShape(node: ConfigNode, ns: NamespaceTable, predName: string, predUri: string,
                                               isObject: bool, vs: seq<string>)
    requires node.Element?
    ensures PredicateElements(TripleElements(node, ns, predName, predUri, isObject, vs), predName, predUri, isObject)
    decreases |vs|
  {
    if |vs| > 0 {
      var front := TripleElements(node, ns, predName, predUri, isObject, vs[..|vs| - 1]);
      TripleElementsShape(node, ns, predName, predUri, isObject, vs[..|vs| - 1]);
      var last := TripleElement(node, ns, predName, predUri, isObject, vs[|vs| - 1]);
      if last.Some? {
        assert TripleElements(node, ns, predName, predUri, isObject, vs) == front + [last.value];
      }
    }
  }

  /** None of the values vs gives an element. */
  predicate NoTripleElement(node: ConfigNode, ns: NamespaceTable, predName: string, predUri: string,
                            isObject: bool, vs: seq<string>)
    requires node.Element?
  {
    forall j :: 0 <= j < |vs| ==> TripleElement(node, ns, predName, predUri, isObject, vs[j]).None?
  }

  /** A <triple> gives no element exactly when none of its values gives one. */
  lemma {:induction false} TripleElementsEmpty(node: ConfigNode, ns: NamespaceTable, predName: string, predUri: string,
                                               isObject: bool, vs: seq<string>)
    requires node.Element?
    ensures NoTripleElement(node, ns, predName, predUri, isObject, vs) <==>
            TripleElements(node, ns, predName, predUri, isObject, vs) == []
    decreases |vs|
  {
    if |vs| > 0 {
      var front := vs[..|vs| - 1];
      var last := TripleElement(node, ns, predName, predUri, isObject, vs[|vs| - 1]);
      TripleElementsEmpty(node, ns, predName, predUri, isObject, front);
      assert NoTripleElement(node, ns, predName, predUri, isObject, vs) <==>
             NoTripleElement(node, ns, predName, predUri, isObject, front) && last.None? by {
        if NoTripleElement(node, ns, predName, predUri, isObject, vs) {
          forall j | 0 <= j < |front|
            ensures TripleElement(node, ns, predName, predUri, isObject, front[j]).None?
          {
            assert front[j] == vs[j];
          }
        }
        if NoTripleElement(node, ns, predName, predUri, isObject, front) && last.None? {
          forall j | 0 <= j < |vs|
            ensures TripleElement(node, ns, predName, predUri, isObject, vs[j]).None?
          {
            if j < |front| {
              assert front[j] == vs[j];
            }
          }
        }
      }
    }
  }

  /** One more value adds its element, if any, at the end. */
  lemma TripleElementsSnoc(node: ConfigNode, ns: NamespaceTable, predName: string, predUri: string,
                           isObject: bool, vs: seq<string>, i: nat)
    requires node.Element? && i < |vs|
    ensures TripleElements(node, ns, predName, predUri, isObject, vs[..i + 1]) ==
      TripleElements(node, ns, predName, predUri, isObject, vs[..i]) +
      Listed(TripleElement(node, ns, predName, predUri, isObject, vs[i]))
  {
    assert vs[..i + 1][..i] == vs[..i];
  }

  /** The elements of the first values come first. */
  lemma {:induction false} TripleElementsPrefix(node: ConfigNode, ns: NamespaceTable, predName: string, predUri: string,
                                                isObject: bool, vs: seq<string>, i: nat)
    requires node.Element? && i <= |vs|
    ensures TripleElements(node, ns, predName, predUri, isObject, vs[..i]) <=
            TripleElements(node, ns, predName, predUri, isObject, vs)
    decreases |vs|
  {
    if i < |vs| {
      var front := vs[..|vs| - 1];
      assert vs[..i] == front[..i];
      TripleElementsPrefix(node, ns, predName, predUri, isObject, front, i);
    } else {
      assert vs[..i] == vs;
    }
  }

  /** The rdf:type element of one value of a <type>: the value is shortened
      as it is, without cleaning. */
  function TypeElement(ns: NamespaceTable, v: string): (r: Element)
    ensures r.name == "rdf" + ":" + "type" && r.namespaceUri == Lookup(ns, "rdf").GetOr("") && r.children == []
    ensures |r.attributes| == 1 && r.attributes[0].name == "rdf" + ":" + "resource"
  {
    var rdf := Lookup(ns, "rdf").GetOr("");
    var short := ShortUriOf(ns, v);
    PredicateObjectElement("rdf" + ":" + "type", rdf, "rdf" + ":" + "resource", rdf, short.0, short.1)
  }

  /** The predicate prefix of a <triple> and the elements its values give,
      or the error raised before any is added: a missing predicate, one
      without ':', an unknown modifier, or the values' own errors. An object
      attribute makes resource objects; otherwise the value attribute gives
      literals. */
  function TriplePlan(env: Env, d: DataDocument, context: DataNode, node: ConfigNode,
                      ns: NamespaceTable, providers: seq<Provider>, rt: Runtime): (r: Result<(string, string, seq<Element>)>)
    requires node.Element?
    ensures "predicate" !in node.attributes ==> r == Err(MissingAttribute("predicate"))
    ensures "predicate" in node.attributes && ':' !in node.attributes["predicate"] ==> r == Err(IndexOutOfRange)
    ensures r.Ok? ==>
      "predicate" in node.attributes && PredicateParts(node.attributes["predicate"]).Ok? &&
      var (prefix, name) := PredicateParts(node.attributes["predicate"]).value;
      r.value.0 == prefix && r.value.1 == name &&
      PredicateElements(r.value.2, prefix + ":" + name, Lookup(ns, prefix).GetOr(""), "object" in node.attributes)
  {
    if "predicate" !in node.attributes then Err(MissingAttribute("predicate"))
    else
      var parts :- PredicateParts(node.attributes["predicate"]);
      var mod :- ModifierOf(node, providers);
      var isObject := "object" in node.attributes;
      var vs :- GetValuesOf(env, d, context, node, if isObject then "object" else "value", mod, 0, 0, rt);
      TripleElementsShape(node, ns, parts.0 + ":" + parts.1, Lookup(ns, parts.0).GetOr(""), isObject, vs);
      Ok((parts.0, parts.1, TripleElements(node, ns, parts.0 + ":" + parts.1, Lookup(ns, parts.0).GetOr(""), isObject, vs)))
  }

  /** What the RdfOutput call a <triple> makes for each value throws once
      it has a subject: AddPredicateAndObject for objects, whose attribute
      is rdf:resource; AddPredicateAndLiteralWithType or ...WithLanguage,
      which create the element from prefix and name, when the node has a
      type or a language attribute; AddPredicateAndLiteral, which creates it
      from "prefix:name", otherwise. */
  function TripleFailure(node: ConfigNode, ns: NamespaceTable, predNs: string, predName: string, isObject: bool)
    : (r: Option<Exception>)
    requires node.Element?
    ensures !HasPrefix(ns, predNs) ==> r == Some(KeyNotFound(predNs))
  {
    if isObject then ObjectFailure(ns, predNs, predName, "rdf", "resource")
    else if "type" in node.attributes || "language" in node.attributes then ElementFailure(ns, predNs, predName)
    else QualifiedElementFailure(ns, predNs, predName)
  }

  /** With rdf and the predicate's prefix bound, every overload accepts the
      predicate exactly when its prefix and its local name are XML names;
      the local name must not be empty. */
  lemma TripleFailureOfName(node: ConfigNode, ns: NamespaceTable, predNs: string, predName: string, isObject: bool)
    requires node.Element? && HasPrefix(ns, predNs) && HasPrefix(ns, "rdf") && predNs != "" && ':' !in predNs
    ensures TripleFailure(node, ns, predNs, predName, isObject).None? <==>
      NameChars(predNs) && NameChars(predName) && predName != ""
  {
    FixedNamesValid();
    QualifiedNameOfParts(predNs, predName);
  }

  /** A predicate attribute "dc:" + name whose local name is empty or holds
      a space (as in "dc:" or "dc:my title") splits into the bound prefix dc
      and a local name that is not an XML name, so every value of the
      <triple> fails as soon as its element is created, whatever overload
      creates it. */
  lemma BadLocalNameFails(node: ConfigNode, ns: NamespaceTable, name: string, isObject: bool)
    requires node.Element? && HasPrefix(ns, "dc") && HasPrefix(ns, "rdf")
    requires ':' !in name && (name == "" || ' ' in name)
    ensures PredicateParts("dc" + ":" + name) == Ok(("dc", name))
    ensures TripleFailure(node, ns, "dc", name, isObject).Some?
  {
    PredicatePartsOfJoined("dc", name);
    if name != "" {
      var i :| 0 <= i < |name| && name[i] == ' ';
      assert !NameChar(name[i]);
    }
    TripleFailureOfName(node, ns, "dc", name, isObject);
  }

  /** What a <triple> reads before adding anything: the predicate's prefix
      and name, whether the values are objects, and the values themselves;
      the elements TriplePlan gives are those of these values. */
  method TripleValues(env: Env, d: DataDocument, context: DataNode, node: ConfigNode,
                      providers: seq<Provider>, rt: Runtime)
    returns (r: Result<(string, string, bool, seq<string>)>)
    requires node.Element?
    ensures r.Ok? ==> r.value.2 == ("object" in node.attributes)
    ensures forall ns: NamespaceTable {:trigger TriplePlan(env, d, context, node, ns, providers, rt)} ::
      match TriplePlan(env, d, context, node, ns, providers, rt)
      case Err(e) => r == Err(e)
      case Ok(plan) =>
        r.Ok? &&
        plan == (r.value.0, r.value.1, TripleElements(node, ns, r.value.0 + ":" + r.value.1, Lookup(ns, r.value.0).GetOr(""),
                                                      r.value.2, r.value.3))
  {
    if "predicate" !in node.attributes {
      return Err(MissingAttribute("predicate"));
    }
    var parts := PredicateParts(node.attributes["predicate"]);
    if parts.Err? {
      return Err(parts.error);
    }
    var mod := GetModifier(node, providers);
    if mod.Err? {
      return Err(mod.error);
    }
    var isObject := "object" in node.attributes;
    var values := GetValues(env, d, context, node, if isObject then "object" else "value", mod.value, 0, 0, rt);
    if values.Err? {
      return Err(values.error);
    }
    r := Ok((parts.value.0, parts.value.1, isObject, values.value));
  }

  /** What AddPredicateAndObject(subject, "rdf", "type", "rdf", "resource",
      ...) throws: nothing, once rdf is bound. */
  function TypeFailure(ns: NamespaceTable): (r: Option<Exception>)
    ensures HasPrefix(ns, "rdf") ==> r.None?
  {
    FixedNamesValid();
    ObjectFailure(ns, "rdf", "type", "rdf", "resource")
  }

  /** The rdf:type elements of a <type>, one per value of its value
      attribute, of which there must be at least one. */
  function TypePlan(env: Env, d: DataDocument, context: DataNode, node: ConfigNode,
                    ns: NamespaceTable, rt: Runtime): (r: Result<seq<Element>>)
    requires node.Element?
    ensures "value" !in node.attributes ==> r == Err(MissingAttribute("value"))
    ensures r.Ok? ==>
      GetValuesOf(env, d, context, node, "value", None, 1, 0, rt).Ok? &&
      |r.value| == |GetValuesOf(env, d, context, node, "value", None, 1, 0, rt).value| >= 1 &&
      forall k :: 0 <= k < |r.value| ==>
        r.value[k] == TypeElement(ns, GetValuesOf(env, d, context, node, "value", None, 1, 0, rt).value[k])
  {
    var vs :- GetValuesOf(env, d, context, node, "value", None, 1, 0, rt);
    Ok(TypeElements(ns, vs))
  }

  /** The rdf:type element of each value, in order. */
  function TypeElements(ns: NamespaceTable, vs: seq<string>): (r: seq<Element>)
    ensures |r| == |vs| && forall k :: 0 <= k < |vs| ==> r[k] == TypeElement(ns, vs[k])
  {
    seq(|vs|, k requires 0 <= k < |vs| => TypeElement(ns, vs[k]))
  }

  /** Adding elements under a subject one RdfOutput call at a time, where
      failure is what each call throws once it has a subject (the calls of
      one tag all name the same predicate). With nothing to add nothing
      happens; otherwise the first call already throws when there is no
      subject or failure is some exception, and else every element becomes
      a new last child of the subject. */
  function AttachOutcome(a0: seq<Element>, subject: Option<nat>, failure: Option<Exception>,
                         es: seq<Element>): (r: (seq<Element>, Option<Exception>))
    requires subject.Some? ==> subject.value < |a0|
    ensures r.1.Some? <==> |es| > 0 && (subject.None? || failure.Some?)
    ensures r.1.Some? ==> r.0 == a0 && r.1 == (if subject.None? then Some(NullReference) else failure)
    ensures r.1.None? && |es| > 0 ==> subject.Some? && r.0 == AttachAll(a0, subject.value, es)
    ensures |es| == 0 ==> r == (a0, None)
  {
    if |es| == 0 then (a0, None)
    else if subject.None? then (a0, Some(NullReference))
    else if failure.Some? then (a0, failure)
    else (AttachAll(a0, subject.value, es), None)
  }

  /** The element, if any, as a sequence. */
  function Listed(e: Option<Element>): (r: seq<Element>)
    ensures e.None? ==> r == []
    ensures e.Some? ==> r == [e.value]
  {
    if e.Some? then [e.value] else []
  }

  /** Attaching one more element after a run that succeeded. */
  lemma AttachOutcomeSnoc(a0: seq<Element>, subject: Option<nat>, failure: Option<Exception>,
                          before: seq<Element>, e: Option<Element>, a1: seq<Element>, a2: seq<Element>)
    requires subject.Some? ==> subject.value < |a0|
    requires AttachOutcome(a0, subject, failure, before) == (a1, None)
    requires e.None? ==> a2 == a1
    requires e.Some? ==> subject.Some? && failure.None? && a2 == AttachNew(a1, subject.value, e.value)
    ensures AttachOutcome(a0, subject, failure, before + Listed(e)) == (a2, None)
  {
    if e.None? {
      assert before + Listed(e) == before;
    } else {
      AttachAllSnoc(a0, subject.value, before, e.value);
    }
  }

  /** The first element that cannot be attached ends the run, before which
      nothing was attached, with the error the first call throws. */
  lemma AttachOutcomeFirstFailure(a0: seq<Element>, subject: Option<nat>, failure: Option<Exception>,
                                  before: seq<Element>, e: Element, es: seq<Element>, a1: seq<Element>)
    requires subject.Some? ==> subject.value < |a0|
    requires AttachOutcome(a0, subject, failure, before) == (a1, None)
    requires subject.None? || failure.Some?
    requires before + [e] <= es
    ensures a1 == a0
    ensures AttachOutcome(a0, subject, failure, es) ==
      (a0, Some(if subject.None? then NullReference else failure.value))
  {
    assert es[|before|] == e;
  }

  /** Attaching elements only ever extends the output. */
  lemma AttachOutcomeExtends(a0: seq<Element>, subject: Option<nat>, failure: Option<Exception>, es: seq<Element>)
    requires subject.Some? ==> subject.value < |a0|
    ensures ArenaExtends(a0, AttachOutcome(a0, subject, failure, es).0)
  {
    if |es| > 0 && subject.Some? && failure.None? {
      AttachAllExtends(a0, subject.value, es);
    }
  }

  // <bnode predicate="ns:Name" type="ns:Type">

  // <usenamedmapping name="...">, <mapping match="{...}">, <if match="{...}">

  /** The <namedmapping> a <usenamedmapping> names, found with the
      configuration document's SelectSingleNode, select. */
  function NamedMappingOf(config: ConfigNode, node: ConfigNode, select: string -> Result<Option<ConfigNode>>)
    : (r: Result<ConfigNode>)
    requires node.Element?
    ensures "name" !in node.attributes ==> r == Err(MissingAttribute("name"))
    ensures "name" in node.attributes && FindNamedMapping(config, node.attributes["name"], select) == Ok(None) ==>
      r == Err(MappingNotFound(node.attributes["name"]))
    ensures "name" in node.attributes && Apostrophes(node.attributes["name"]) % 2 == 1 ==>
      r == Err(XPathFailure(NamedMappingPath(node.attributes["name"])))
    ensures r.Ok? && "name" in node.attributes && Apostrophes(node.attributes["name"]) == 0 ==>
      r.value.Element? && r.value.name == "namedmapping" && Attr(r.value, "name") == Some(node.attributes["name"])
    ensures r.Ok? ==> "name" in node.attributes && FindNamedMapping(config, node.attributes["name"], select) == Ok(Some(r.value))
  {
    if "name" !in node.attributes then Err(MissingAttribute("name"))
    else
      var found :- FindNamedMapping(config, node.attributes["name"], select);
      match found
      case None => Err(MappingNotFound(node.attributes["name"]))
      case Some(m) => Ok(m)
  }

  /** The data nodes a match attribute selects: its brackets removed and its
      internal calls substituted, it must select a node set. */
  function Selected(env: Env, d: DataDocument, context: DataNode, node: ConfigNode): (r: Result<seq<DataNode>>)
    requires node.Element?
    ensures "match" !in node.attributes ==> r == Err(MissingAttribute("match"))
    ensures r.Ok? ==>
      "match" in node.attributes &&
      MatchNestedOf(env, RemoveClosingBrackets(node.attributes["match"])).Ok? &&
      d.evaluate(context, MatchNestedOf(env, RemoveClosingBrackets(node.attributes["match"])).value) == NodeSet(r.value)
  {
    if "match" !in node.attributes then Err(MissingAttribute("match"))
    else
      var path :- MatchNestedOf(env, RemoveClosingBrackets(node.attributes["match"]));
      SelectNodes(d, context, path)
  }

  /** The condition of an <if>: the XPath result of its match attribute,
      brackets removed twice, with the text the error names. An expression
      that does not compile is an error. */
  function IfCondition(env: Env, d: DataDocument, context: DataNode, node: ConfigNode): (r: Result<(XPathResult, string)>)
    requires node.Element?
    ensures "match" !in node.attributes ==> r == Err(MissingAttribute("match"))
    ensures r.Ok? ==>
      !r.value.0.Invalid? &&
      r.value.0 == d.evaluate(context, RemoveClosingBrackets(r.value.1)) &&
      "match" in node.attributes && MatchNestedOf(env, RemoveClosingBrackets(node.attributes["match"])) == Ok(r.value.1)
  {
    if "match" !in node.attributes then Err(MissingAttribute("match"))
    else
      var m :- MatchNestedOf(env, RemoveClosingBrackets(node.attributes["match"]));
      var path := RemoveClosingBrackets(m);
      var result := d.evaluate(context, path);
      if result.Invalid? then Err(XPathFailure(path)) else Ok((result, m))
  }

  /** A <case> whose body running does not end the <switch>: a match case
      with a break attribute, or a value case without one. */
  predicate CaseContinues(c: ConfigNode)
    requires c.Element?
  {
    if "match" in c.attributes then "break" in c.attributes else "break" !in c.attributes
  }

  /** Whether a match case applies: its path, brackets removed and internal
      calls replaced, selects at least one node of the data. */
  function CaseMatchOf(env: Env, d: DataDocument, context: DataNode, matchAttr: string): (r: Result<bool>)
  {
    var path :- MatchNestedOf(env, RemoveClosingBrackets(matchAttr));
    var selected :- SelectNodes(d, context, path);
    Ok(|selected| > 0)
  }

  method CaseMatches(env: Env, d: DataDocument, context: DataNode, matchAttr: string) returns (r: Result<bool>)
    ensures r == CaseMatchOf(env, d, context, matchAttr)
  {
    var m := MatchNestedInternalFunctionCalls(env, RemoveClosingBrackets(matchAttr));
    if m.Err? {
      return Err(m.error);
    }
    var selected := SelectNodes(d, context, m.value);
    if selected.Err? {
      return Err(selected.error);
    }
    r := Ok(|selected.value| > 0);
  }

  /** n runs of the same case body. */
  function Copies(c: ConfigNode, n: nat): (r: seq<ConfigNode>)
    ensures |r| == n && forall k :: 0 <= k < n ==> r[k] == c
  {
    if n == 0 then [] else Copies(c, n - 1) + [c]
  }

  /** How many times a value case's body runs over the switch's values from
      index from on: once for each value whose text is the case's value,
      ending after the first of them when the case breaks. */
  function ValueRuns(d: DataDocument, vs: seq<DataNode>, value: string, breaks: bool, from: nat): (n: nat)
    requires from <= |vs|
    ensures n > 0 <==> exists j :: from <= j < |vs| && d.innerText(vs[j]) == value
    ensures breaks ==> n <= 1
    ensures n <= |vs| - from
    decreases |vs| - from
  {
    if from == |vs| then 0
    else if d.innerText(vs[from]) == value then
      if breaks then 1 else 1 + ValueRuns(d, vs, value, breaks, from + 1)
    else ValueRuns(d, vs, value, breaks, from + 1)
  }

  /** A value case's loop after the values before index j: ran holds its
      runs so far, and, unless a run has ended the switch, the runs still to
      come complete ValueRuns. */
  predicate ValueScan(c: ConfigNode, d: DataDocument, vs: seq<DataNode>, value: string, breaks: bool, j: nat,
                      ran: seq<ConfigNode>, stop: bool)
    requires j <= |vs|
  {
    ran == Copies(c, |ran|) &&
    if stop then breaks && |ran| == 1 && ValueRuns(d, vs, value, breaks, 0) == 1
    else |ran| + ValueRuns(d, vs, value, breaks, j) == ValueRuns(d, vs, value, breaks, 0) && (breaks ==> ran == [])
  }

  /** The loop's step over value j: a value with the case's text runs the
      body once more, and ends the switch when the case breaks. */
  lemma ValueStep(c: ConfigNode, d: DataDocument, vs: seq<DataNode>, value: string, breaks: bool, j: nat,
                  ran: seq<ConfigNode>)
    requires j < |vs| && ValueScan(c, d, vs, value, breaks, j, ran, false)
    ensures d.innerText(vs[j]) == value ==> ValueScan(c, d, vs, value, breaks, j + 1, ran + [c], breaks)
    ensures d.innerText(vs[j]) != value ==> ValueScan(c, d, vs, value, breaks, j + 1, ran, false)
  {
  }

  /** When the loop ends, ran holds exactly the runs ValueRuns counts. */
  lemma ValueScanEnd(c: ConfigNode, d: DataDocument, vs: seq<DataNode>, value: string, breaks: bool, j: nat,
                     ran: seq<ConfigNode>, stop: bool)
    requires j <= |vs| && ValueScan(c, d, vs, value, breaks, j, ran, stop) && (j == |vs| || stop)
    ensures var n := ValueRuns(d, vs, value, breaks, 0);
      ran == Copies(c, n) && (stop <==> n > 0 && breaks)
  {
  }

  /** What one <case> does: the exception it throws, how many times its
      body runs, and whether it ends the switch. */
  datatype CaseOutcome = CaseOutcome(error: Option<Exception>, runs: nat, stop: bool)

  /** A case outcome that lets the switch go on to its next case. */
  predicate GoesOn(o: CaseOutcome)
  {
    o.error.None? && !o.stop
  }

  /** The outcome of a <case> met with the variables env and the switch's
      values sv (None when the switch has no match attribute): a match case
      runs once when its path selects a node and then ends the switch unless
      it has a break attribute; a value case runs once per equal value and
      ends the switch after its first run when it has a break attribute; a
      value case in a switch without values meets a null list; a case with
      neither attribute is an error. */
  function CaseOutcomeOf(c: ConfigNode, env: Env, d: DataDocument, context: DataNode,
                         sv: Option<seq<DataNode>>): (o: CaseOutcome)
    ensures o.error.Some? ==> o.runs == 0 && !o.stop
    ensures o.runs > 0 ==> c.Element? && ("match" in c.attributes || "value" in c.attributes)
    ensures o.stop ==> o.runs > 0 && !CaseContinues(c)
    ensures o.runs > 1 ==> "match" !in c.attributes && "break" !in c.attributes
    ensures o.runs > 0 && !o.stop ==> CaseContinues(c)
  {
    if c.Element? && "match" in c.attributes then
      match CaseMatchOf(env, d, context, c.attributes["match"])
      case Err(e) => CaseOutcome(Some(e), 0, false)
      case Ok(b) => CaseOutcome(None, if b then 1 else 0, b && "break" !in c.attributes)
    else if c.Element? && "value" in c.attributes then
      if sv.None? then CaseOutcome(Some(NullReference), 0, false)
      else
        var n := ValueRuns(d, sv.value, c.attributes["value"], "break" in c.attributes, 0);
        CaseOutcome(None, n, n > 0 && "break" in c.attributes)
    else CaseOutcome(Some(CaseWithoutCondition), 0, false)
  }

  /** The outcomes of the cases when the k-th was met with the variables
      envs[k]. */
  function OutcomesOf(cases: seq<ConfigNode>, envs: seq<Env>, d: DataDocument, context: DataNode,
                      sv: Option<seq<DataNode>>): (r: seq<CaseOutcome>)
    requires |envs| <= |cases|
    ensures |r| == |envs|
    decreases |envs|
  {
    if envs == [] then []
    else
      var n := |envs| - 1;
      OutcomesOf(cases, envs[..n], d, context, sv) + [CaseOutcomeOf(cases[n], envs[n], d, context, sv)]
  }

  /** Meeting one more case appends its outcome. */
  lemma OutcomesStep(cases: seq<ConfigNode>, envs: seq<Env>, env: Env, d: DataDocument, context: DataNode,
                     sv: Option<seq<DataNode>>)
    requires |envs| < |cases|
    ensures OutcomesOf(cases, envs + [env], d, context, sv) ==
      OutcomesOf(cases, envs, d, context, sv) + [CaseOutcomeOf(cases[|envs|], env, d, context, sv)]
  {
    assert (envs + [env])[..|envs|] == envs;
  }

  /** The visits of a switch's total cases had the outcomes os, in order:
      every visit but the last went on, and the visits ended before the
      last case only because the last visit did not go on. */
  predicate Visited(os: seq<CaseOutcome>, total: nat)
  {
    |os| <= total &&
    (forall k :: 0 <= k < |os| - 1 ==> GoesOn(os[k])) &&
    (|os| < total ==> os != [] && !GoesOn(os[|os| - 1]))
  }

  /** The exception the visits end with: the last visit's. */
  function LastError(os: seq<CaseOutcome>): (r: Option<Exception>)
    ensures r.Some? ==> os != [] && !GoesOn(os[|os| - 1])
  {
    if os == [] then None else os[|os| - 1].error
  }

  /** The visit of a switch's cases is over: the k-th case was met with
      the variables envs[k], the visits stopped as Visited says, err is the
      exception they ended with and ran the case bodies that ran. */
  predicate CasesDone(cases: seq<ConfigNode>, envs: seq<Env>, err: Option<Exception>, ran: seq<ConfigNode>,
                      d: DataDocument, context: DataNode, sv: Option<seq<DataNode>>)
  {
    |envs| <= |cases| &&
    var os := OutcomesOf(cases, envs, d, context, sv);
    Visited(os, |cases|) && err == LastError(os) && ran == RunsOf(cases, os)
  }

  /** The end of a <switch> whose values are sv: its cases were visited as
      CasesDone says; an exception from them is the one logged and nothing
      more runs; otherwise, when no case body ran, the single <default>
      runs, and more than one <default> is an error. */
  predicate SwitchDone(node: ConfigNode, sv: Option<seq<DataNode>>, envs: seq<Env>, caseError: Option<Exception>,
                       ranCases: seq<ConfigNode>, ranDefault: bool, logged: Option<Exception>,
                       d: DataDocument, context: DataNode)
  {
    CasesDone(ChildrenNamed(Children(node), "case"), envs, caseError, ranCases, d, context, sv) &&
    (caseError.Some? ==> logged == caseError && !ranDefault) &&
    (caseError.None? ==>
       var defaults := |ChildrenNamed(Children(node), "default")|;
       (ranDefault <==> ranCases == [] && defaults == 1) &&
       (logged.Some? <==> ranCases == [] && defaults > 1) &&
       (logged.Some? ==> logged == Some(TooManyDefaults)))
  }

  /** The case bodies that ran, in order, when the cases had the outcomes
      os. */
  function RunsOf(cases: seq<ConfigNode>, os: seq<CaseOutcome>): (r: seq<ConfigNode>)
    requires |os| <= |cases|
    ensures forall k :: 0 <= k < |r| ==> r[k] in cases[..|os|]
    decreases |os|
  {
    if os == [] then []
    else
      var n := |os| - 1;
      var front := RunsOf(cases, os[..n]);
      assert cases[..n] <= cases[..|os|];
      front + Copies(cases[n], os[n].runs)
  }

  /** No case body ran exactly when no visited case's condition held. */
  lemma {:induction false} NoCaseRan(cases: seq<ConfigNode>, os: seq<CaseOutcome>)
    requires |os| <= |cases|
    ensures RunsOf(cases, os) == [] <==> forall k :: 0 <= k < |os| ==> os[k].runs == 0
  {
    if os != [] {
      var n := |os| - 1;
      NoCaseRan(cases, os[..n]);
      assert |RunsOf(cases, os)| == |RunsOf(cases, os[..n])| + os[n].runs;
      assert forall k :: 0 <= k < n ==> os[..n][k] == os[k];
    }
  }

  /** The first |envs| cases were visited with the variables envs and all
      went on: os are their outcomes and ran the bodies that ran. */
  predicate AllWentOn(cases: seq<ConfigNode>, envs: seq<Env>, os: seq<CaseOutcome>, ran: seq<ConfigNode>,
                      d: DataDocument, context: DataNode, sv: Option<seq<DataNode>>)
  {
    |envs| == |os| <= |cases| && os == OutcomesOf(cases, envs, d, context, sv) &&
    (forall k :: 0 <= k < |os| ==> GoesOn(os[k])) && ran == RunsOf(cases, os)
  }

  /** Visiting the next case with the variables env: the visits go on when
      its outcome does, and otherwise end with its exception. */
  lemma Advance(cases: seq<ConfigNode>, envs: seq<Env>, os: seq<CaseOutcome>, ran: seq<ConfigNode>, env: Env,
                d: DataDocument, context: DataNode, sv: Option<seq<DataNode>>)
    requires AllWentOn(cases, envs, os, ran, d, context, sv) && |envs| < |cases|
    ensures var o := CaseOutcomeOf(cases[|envs|], env, d, context, sv);
      var ran' := ran + Copies(cases[|envs|], o.runs);
      os + [o] == OutcomesOf(cases, envs + [env], d, context, sv) && ran' == RunsOf(cases, os + [o]) &&
      (GoesOn(o) ==> AllWentOn(cases, envs + [env], os + [o], ran', d, context, sv)) &&
      (!GoesOn(o) ==> Visited(os + [o], |cases|) && LastError(os + [o]) == o.error)
  {
    var o := CaseOutcomeOf(cases[|envs|], env, d, context, sv);
    assert (envs + [env])[..|envs|] == envs;
    assert (os + [o])[..|os|] == os;
    var e := os + [o];
    assert forall k :: 0 <= k < |os| ==> e[k] == os[k];
  }

  /** Visits that all went on, one per case, end without an exception. */
  lemma VisitedAll(cases: seq<ConfigNode>, envs: seq<Env>, os: seq<CaseOutcome>, ran: seq<ConfigNode>,
                   d: DataDocument, context: DataNode, sv: Option<seq<DataNode>>)
    requires AllWentOn(cases, envs, os, ran, d, context, sv) && |envs| == |cases|
    ensures CasesDone(cases, envs, None, ran, d, context, sv)
  {
    if os != [] {
      assert GoesOn(os[|os| - 1]);
    }
  }

  /** The values a <switch> offers its value cases: those its match
      attribute selects, or none when it has no match attribute. */
  function SwitchValuesOf(env: Env, d: DataDocument, context: DataNode, node: ConfigNode): (r: Result<Option<seq<DataNode>>>)
    requires node.Element?
    ensures "match" !in node.attributes ==> r == Ok(None)
    ensures r.Ok? && r.value.Some? ==> Selected(env, d, context, node) == Ok(r.value.value)
    ensures r.Err? ==> Selected(env, d, context, node) == Err(r.error)
  {
    if "match" !in node.attributes then Ok(None)
    else
      match Selected(env, d, context, node)
      case Err(e) => Err(e)
      case Ok(vs) => Ok(Some(vs))
  }

  // ---------------------------------------------------------------------
  // The interpreter

  /** The subject handlers attach to: an element of the output, and whether
      its identifier has been given. ResourceNode's own source file is not
      part of this model; these are the two members RDFer uses. */
  class ResourceNode {
    var xmlResourceNode: nat
    var hasIdentifier: bool

    constructor(handle: nat, hasIdentifier: bool)
      ensures xmlResourceNode == handle && this.hasIdentifier == hasIdentifier
    {
      xmlResourceNode := handle;
      this.hasIdentifier := hasIdentifier;
    }
  }

  /** The element a handler's additions go under, if there is a subject. */
  function SubjectOf(resource: ResourceNode?): Option<nat>
    reads resource
  {
    if resource == null then None else Some(resource.xmlResourceNode)
  }

  /** The arena once a <bnode>'s predicate element pe and type element te
      are added, te as pe's only child and pe, when there is a subject, as
      the subject's last child. */
  function BnodeArena(a0: seq<Element>, subject: Option<nat>, pe: Element, te: Element): (r: seq<Element>)
    requires subject.Some? ==> subject.value < |a0|
    ensures |r| == |a0| + 2 && r[|a0|] == pe.(children := [|a0| + 1]) && r[|a0| + 1] == te
    ensures forall i :: 0 <= i < |a0| && subject != Some(i) ==> r[i] == a0[i]
    ensures subject.Some? ==>
      r[subject.value] == a0[subject.value].(children := a0[subject.value].children + [|a0|])
    ensures ArenaExtends(a0, r)
  {
    var tail := [pe.(children := [|a0| + 1]), te];
    match subject
    case None =>
      AdoptExtends(a0, tail, None);
      a0 + tail
    case Some(h) =>
      AdoptExtends(a0, tail, Some((h, |a0|)));
      a0[h := a0[h].(children := a0[h].children + [|a0|])] + tail
  }

  /** What a <bnode> leaves behind, from the arena a0, the subject and the
      predicate and type elements AddBnode makes or fails to make: the first
      failure, with the predicate element left detached when only the type
      fails; both elements linked, and a NullReference without a subject. */
  function BnodeOutcome(a0: seq<Element>, subject: Option<nat>, p: Result<Element>, t: Result<Element>)
    : (r: (seq<Element>, Option<Exception>))
    requires subject.Some? ==> subject.value < |a0|
    ensures ArenaExtends(a0, r.0)
    ensures r.1.None? <==> p.Ok? && t.Ok? && subject.Some?
    ensures p.Err? ==> r == (a0, Some(p.error))
    ensures p.Ok? && t.Err? ==> r == (a0 + [p.value], Some(t.error))
    ensures p.Ok? && t.Ok? ==> r.0 == BnodeArena(a0, subject, p.value, t.value)
    ensures p.Ok? && t.Ok? && subject.None? ==> r.1 == Some(NullReference)
  {
    if p.Err? then (a0, Some(p.error))
    else if t.Err? then
      AdoptExtends(a0, [p.value], None);
      (a0 + [p.value], Some(t.error))
    else (BnodeArena(a0, subject, p.value, t.value), if subject.None? then Some(NullReference) else None)
  }

  class RDFer {
    const config: ConfigNode
    const data: DataDocument
    const dataPath: string
    const outputPath: string
    const format: string
    const rt: Runtime
    const providers: seq<Provider>
    /** The GUID and clock reading the n-th Generate draws. */
    const seeds: nat -> Seed
    /** SelectSingleNode on the configuration document, for an expression
        the model does not evaluate itself. */
    const selectConfig: string -> Result<Option<ConfigNode>>

    var namespaces: NamespaceTable
    var output: RdfOutput?
    var counters: map<string, Counter>
    var uniqueIdentifiers: map<string, UniqueIdentifier>
    var ifStatementMatch: bool
    var generated: nat
    ghost var Repr: set<object>

    /** Each counter is stored under its own name and holds 32-bit values. */
    ghost predicate CountersOk()
      reads this`counters, counters.Values
    {
      forall k :: k in counters ==> counters[k].Valid() && counters[k].counterName == k
    }

    /** Each unique identifier is stored under its own name and has been
        generated. */
    ghost predicate IdentifiersOk()
      reads this`uniqueIdentifiers, uniqueIdentifiers.Values
    {
      forall k :: k in uniqueIdentifiers ==> uniqueIdentifiers[k].name == k && uniqueIdentifiers[k].uniqueId != ""
    }

    /** The counters and identifiers are well kept, and the output shares
        the interpreter's namespace table. */
    ghost predicate Valid()
      reads this, Repr
    {
      ReprOk() && CountersOk() && IdentifiersOk() && OutputOk()
    }

    /** The interpreter owns itself, its counters, its identifiers and its
        output. */
    ghost predicate ReprOk()
      reads this`Repr, this`counters, this`uniqueIdentifiers, this`output
    {
      this in Repr && counters.Values <= Repr && uniqueIdentifiers.Values <= Repr &&
      (output != null ==> output in Repr)
    }

    /** An open output is well formed and shares the namespace table. */
    ghost predicate OutputOk()
      reads this`output, this`namespaces, output
    {
      output != null ==> output.Valid() && output.namespaces == namespaces
    }

    /** Valid, with the output open and the subject, if any, an element of
        it that the interpreter does not own. */
    ghost predicate Ready(resource: ResourceNode?)
      reads this, Repr, resource
    {
      Valid() && output != null &&
      (resource != null ==> resource !in Repr && resource.xmlResourceNode < |output.arena|)
    }

    /** What every handler keeps: the same output and namespace table, an
        output that only grows, new objects only, and a subject that stays
        the same element and keeps its identifier once it has one. */
    twostate predicate Kept(resource: ResourceNode?)
      reads this, output, resource
    {
      output == old(output) && namespaces == old(namespaces) &&
      old(Repr) <= Repr && fresh(Repr - old(Repr)) &&
      (output != null ==> output.outputPath == old(output.outputPath) &&
                          ArenaExtends(old(output.arena), output.arena)) &&
      (resource != null ==> resource.xmlResourceNode == old(resource.xmlResourceNode) &&
                            (old(resource.hasIdentifier) ==> resource.hasIdentifier))
    }

    /** Ready survives a change to the output alone that keeps it valid,
        keeps its namespace table and does not shrink it. */
    twostate lemma ReadyAfterOutput(resource: ResourceNode?)
      requires old(Ready(resource)) && unchanged(this) && output.Valid() && output.namespaces == old(output.namespaces)
      requires resource != null ==> resource.xmlResourceNode == old(resource.xmlResourceNode)
      requires |old(output.arena)| <= |output.arena|
      requires forall o :: o in Repr && o != output ==> unchanged(o)
      ensures Ready(resource)
    {
    }

    /** What the internal calls read: each counter's value and each unique
        identifier's stored id. */
    function Variables(): Env
      reads this`counters, this`uniqueIdentifiers, counters.Values, uniqueIdentifiers.Values
    {
      Env(CounterVariables(), IdentifierVariables())
    }

    /** Each counter's value, by name. */
    function CounterVariables(): map<string, int>
      reads this`counters, counters.Values
    {
      map k | k in counters :: counters[k].counterValue
    }

    /** Each unique identifier's stored id, by name. */
    function IdentifierVariables(): map<string, string>
      reads this`uniqueIdentifiers, uniqueIdentifiers.Values
    {
      map k | k in uniqueIdentifiers :: uniqueIdentifiers[k].uniqueId
    }

    /** Changing or adding the unique identifier under name changes that
        entry only. */
    twostate lemma IdentifierVariablesUpdated(name: string)
      requires name in uniqueIdentifiers
      requires uniqueIdentifiers.Keys == old(uniqueIdentifiers).Keys + {name}
      requires forall k :: k in old(uniqueIdentifiers) && k != name ==>
        uniqueIdentifiers[k] == old(uniqueIdentifiers[k]) && unchanged(uniqueIdentifiers[k])
      ensures IdentifierVariables() == old(IdentifierVariables())[name := uniqueIdentifiers[name].uniqueId]
    {
    }

    /** The counters as values. */
    ghost function CounterTable(): (r: map<string, CounterState>)
      reads this`counters, counters.Values
      requires CountersOk()
      ensures CountersInRange(r) && r.Keys == counters.Keys
      ensures Variables().counters == CounterValues(r)
    {
      map k | k in counters :: CounterState(counters[k].initialValue, counters[k].counterValue, counters[k].iteration)
    }

    /** The counter values stay put while no counter changes. */
    twostate lemma CounterVariablesKept()
      requires counters == old(counters)
      requires forall k :: k in counters ==> unchanged(counters[k])
      ensures CounterVariables() == old(CounterVariables())
    {
    }

    /** Changing or adding the counter under name changes that entry only. */
    twostate lemma CounterTableUpdated(name: string)
      requires old(CountersOk()) && CountersOk() && name in counters
      requires counters.Keys == old(counters).Keys + {name}
      requires forall k :: k in old(counters) && k != name ==> counters[k] == old(counters[k]) && unchanged(counters[k])
      ensures CounterTable() == old(CounterTable())[name := CounterState(counters[name].initialValue,
                                   counters[name].counterValue, counters[name].iteration)]
    {
    }

    /** RDFer(configPath, dataPath, outputPath, ...): the two documents are
        given loaded; nothing is output yet. */
    constructor(config: ConfigNode, data: DataDocument, dataPath: string, outputPath: string, format: string,
                rt: Runtime, providers: seq<Provider>, seeds: nat -> Seed,
                selectConfig: string -> Result<Option<ConfigNode>>)
      ensures Valid() && fresh(Repr)
      ensures this.config == config && this.data == data && this.dataPath == dataPath
      ensures this.outputPath == outputPath && this.format == format && this.rt == rt
      ensures this.providers == providers && this.seeds == seeds && this.selectConfig == selectConfig
      ensures output == null && counters == map[] && uniqueIdentifiers == map[]
      ensures !ifStatementMatch && generated == 0
    {
      this.config := config;
      this.data := data;
      this.dataPath := dataPath;
      this.outputPath := outputPath;
      this.format := format;
      this.rt := rt;
      this.providers := providers;
      this.seeds := seeds;
      this.selectConfig := selectConfig;
      namespaces := [];
      output := null;
      counters := map[];
      uniqueIdentifiers := map[];
      ifStatementMatch := false;
      generated := 0;
      Repr := {this};
    }

    // -------------------------------------------------------------------
    // The handlers without a catch of their own

    /** <error>: a missing message or a bad exit is a configuration error;
        with a subject, an exit of true throws the message and otherwise it
        is only written out. Both paths read the subject, so without one
        the error is a NullReferenceException. */
    method DoError(resource: ResourceNode?, node: ConfigNode) returns (r: Result<()>)
      requires node.Element?
      ensures match ErrorExit(node)
        case Err(e) => r == Err(e)
        case Ok(exit) =>
          if resource == null then r == Err(NullReference)
          else if exit then r == Err(UserError(node.attributes["message"]))
          else r == Ok(())
    {
      if "message" !in node.attributes {
        return Err(MissingAttribute("message"));
      }
      var message := node.attributes["message"];
      var exit := false;
      if "exit" in node.attributes {
        var parsed := ParseBool(node.attributes["exit"]);
        if parsed.None? {
          return Err(InvalidValue(node.attributes["exit"]));
        }
        exit := parsed.value;
      }
      if resource == null {
        return Err(NullReference);
      }
      if exit {
        return Err(UserError(message));
      }
      r := Ok(());
    }

    /** <counter>: the counters change as the command says, and not at all
        when it fails. */
    method DoCounter(node: ConfigNode) returns (r: Result<()>)
      requires Valid() && node.Element?
      modifies this`counters, this`Repr, counters.Values
      ensures Valid() && old(Repr) <= Repr && fresh(Repr - old(Repr))
      ensures match CounterCommandOf(node)
        case Err(e) => r == Err(e) && CounterTable() == old(CounterTable())
        case Ok(cmd) =>
          match RunCounter(old(CounterTable()), cmd)
          case Err(e) => r == Err(e) && CounterTable() == old(CounterTable())
          case Ok(table) => r == Ok(()) && CounterTable() == table
    {
      var cmd := CounterCommandOf(node);
      if cmd.Err? {
        return Err(cmd.error);
      }
      match cmd.value
      case IterateExisting(name) =>
        if name !in counters {
          return Err(KeyNotFound(name));
        }
        IterateNamed(name);
        r := Ok(());
      case Reset(name, value, direction) =>
        ResetNamed(name, value, direction);
        r := Ok(());
    }

    /** iterate="true": the counter stored under name moves one step. */
    method IterateNamed(name: string)
      requires Valid() && name in counters
      modifies counters[name]
      ensures Valid()
      ensures CounterTable() == RunCounter(old(CounterTable()), IterateExisting(name)).value
    {
      var counter := counters[name];
      assert forall k :: k in counters && k != name ==> counters[k].counterName != counter.counterName;
      counter.IterateCounter();
      CounterTableUpdated(name);
    }

    /** Otherwise the counter under name, created when there is none, takes
        the value and the direction. */
    method ResetNamed(name: string, value: int, direction: Iteration)
      requires Valid() && InInt32(value)
      modifies this`counters, this`Repr, counters.Values
      ensures Valid() && old(Repr) <= Repr && fresh(Repr - old(Repr))
      ensures CounterTable() == RunCounter(old(CounterTable()), Reset(name, value, direction)).value
    {
      if name in counters {
        ResetExisting(name, value, direction);
      } else {
        AddCounter(name, value, direction);
      }
    }

    method ResetExisting(name: string, value: int, direction: Iteration)
      requires Valid() && InInt32(value) && name in counters
      modifies counters[name]
      ensures Valid()
      ensures CounterTable() == RunCounter(old(CounterTable()), Reset(name, value, direction)).value
    {
      var counter := counters[name];
      assert forall k :: k in counters && k != name ==> counters[k].counterName != counter.counterName;
      counter.counterValue := value;
      counter.iteration := direction;
      CounterTableUpdated(name);
    }

    method AddCounter(name: string, value: int, direction: Iteration)
      requires Valid() && InInt32(value) && name !in counters
      modifies this`counters, this`Repr
      ensures Valid() && old(Repr) <= Repr && fresh(Repr - old(Repr))
      ensures CounterTable() == RunCounter(old(CounterTable()), Reset(name, value, direction)).value
    {
      var counter := NewCounter(name, value, direction);
      counters := counters[name := counter];
      Repr := Repr + {counter};
      CounterTableUpdated(name);
      ResetAddsCounter(old(CounterTable()), name, value, direction);
    }

    /** A counter created under name, then set to value and direction. */
    static method NewCounter(name: string, value: int, direction: Iteration) returns (counter: Counter)
      requires InInt32(value)
      ensures fresh(counter) && counter.Valid() && counter.counterName == name
      ensures counter.initialValue == 0 && counter.counterValue == value && counter.iteration == direction
    {
      counter := new Counter(name);
      counter.counterValue := value;
      counter.iteration := direction;
    }

    /** <uniqueidentifier>: generating stores a fresh id under the name,
        drawn from the next seed; generate="false" does nothing. */
    method DoUniqueidentifier(node: ConfigNode) returns (r: Result<()>)
      requires Valid() && node.Element?
      modifies this`uniqueIdentifiers, this`Repr, this`generated, uniqueIdentifiers.Values
      ensures Valid() && old(Repr) <= Repr && fresh(Repr - old(Repr))
      ensures match IdentifierCommandOf(node)
        case Err(e) => r == Err(e) && Variables() == old(Variables()) && generated == old(generated)
        case Ok(None) => r == Ok(()) && Variables() == old(Variables()) && generated == old(generated)
        case Ok(Some(name)) =>
          r == Ok(()) && generated == old(generated) + 1 &&
          Variables().ids == old(Variables().ids)[name := GenerateUniqueId(seeds(old(generated)))] &&
          Variables().counters == old(Variables().counters)
    {
      var cmd := IdentifierCommandOf(node);
      if cmd.Err? {
        return Err(cmd.error);
      }
      if cmd.value.Some? {
        var name := cmd.value.value;
        if name in uniqueIdentifiers {
          GenerateNamed(name);
        } else {
          AddUniqueIdentifier(name);
        }
      }
      r := Ok(());
    }

    /** Generate() on the identifier already stored under name. */
    method GenerateNamed(name: string)
      requires Valid() && name in uniqueIdentifiers
      modifies uniqueIdentifiers[name], this`generated
      ensures Valid() && generated == old(generated) + 1
      ensures IdentifierVariables() == old(IdentifierVariables())[name := GenerateUniqueId(seeds(old(generated)))]
      ensures CounterVariables() == old(CounterVariables())
    {
      var id := uniqueIdentifiers[name];
      id.Generate(seeds(generated));
      generated := generated + 1;
      IdentifierVariablesUpdated(name);
      CounterVariablesKept();
    }

    /** A new identifier stored under name, then generated. */
    method AddUniqueIdentifier(name: string)
      requires Valid() && name !in uniqueIdentifiers
      modifies this`uniqueIdentifiers, this`Repr, this`generated
      ensures Valid() && old(Repr) <= Repr && fresh(Repr - old(Repr)) && generated == old(generated) + 1
      ensures IdentifierVariables() == old(IdentifierVariables())[name := GenerateUniqueId(seeds(old(generated)))]
      ensures CounterVariables() == old(CounterVariables())
    {
      var id := NewGenerated(name, seeds(generated));
      uniqueIdentifiers := uniqueIdentifiers[name := id];
      Repr := Repr + {id};
      generated := generated + 1;
      IdentifierVariablesUpdated(name);
      CounterVariablesKept();
    }

    /** <identifier> under a subject that has none yet: the subject counts as
        identified from the start, and when the identifier's one value
        resolves, it becomes the subject's rdf:about. */
    method DoIdentifier(resource: ResourceNode, node: ConfigNode, context: DataNode) returns (r: Result<()>)
      requires Ready(resource) && node.Element?
      modifies output`arena, resource`hasIdentifier
      ensures Ready(resource) && resource.hasIdentifier && ArenaExtends(old(output.arena), output.arena)
      ensures match IdentifierOf(old(Variables()), data, context, node, namespaces, providers, rt)
        case Err(e) => r == Err(e) && output.arena == old(output.arena)
        case Ok(id) =>
          var h := resource.xmlResourceNode;
          r == Ok(()) &&
          output.arena == old(output.arena)[h := old(output.arena)[h].(
            attributes := AppendAttribute(old(output.arena)[h].attributes, About(output.Rdf(), id.0, id.1)))]
    {
      resource.hasIdentifier := true;
      var id := ResolveIdentifier(Variables(), data, context, node, namespaces, providers, rt);
      if id.Err? {
        return Err(id.error);
      }
      output.AddIdentifierForResource(resource.xmlResourceNode, id.value.0, id.value.1);
      ReadyAfterOutput(resource);
      r := Ok(());
    }

    /** <usenamedmapping>: the children of the named <namedmapping> run
        here, with this subject and context. */
    method DoUsenamedmapping(fuel: nat, resource: ResourceNode?, node: ConfigNode, context: DataNode)
      returns (r: Result<()>)
      requires Ready(resource) && node.Element?
      modifies Repr, resource
      ensures Ready(resource) && Kept(resource)
      ensures match NamedMappingOf(config, node, selectConfig)
        case Err(e) => r == Err(e) && output.arena == old(output.arena)
        case Ok(_) => r == if fuel == 0 then Err(NestingTooDeep) else Ok(())
      decreases fuel, node, 1
    {
      if "name" !in node.attributes {
        return Err(MissingAttribute("name"));
      }
      var name := node.attributes["name"];
      var found := FindNamedMapping(config, name, selectConfig);
      if found.Err? {
        return Err(found.error);
      }
      if found.value.None? {
        return Err(MappingNotFound(name));
      }
      if fuel == 0 {
        return Err(NestingTooDeep);
      }
      var _ := ExecConfig(fuel - 1, resource, found.value.value, context);
      r := Ok(());
    }

    // -------------------------------------------------------------------
    // The handlers that catch and log their own errors

    /** <mapping> (and <foreach>): the children run once per selected data
        node, with that node as context; a namedgraph attribute with exactly
        one value then seals what has been output into that named graph. */
    method DoMapping(fuel: nat, resource: ResourceNode?, node: ConfigNode, context: DataNode)
      returns (logged: Option<Exception>)
      requires Ready(resource) && node.Element?
      modifies Repr, resource
      ensures Ready(resource) && Kept(resource)
      ensures match Selected(old(Variables()), data, context, node)
        case Err(e) => logged == Some(e) && output.arena == old(output.arena)
        case Ok(_) => logged.None?
      decreases fuel, node, 2
    {
      if "match" !in node.attributes {
        return Some(MissingAttribute("match"));
      }
      var path := MatchNestedInternalFunctionCalls(Variables(), RemoveClosingBrackets(node.attributes["match"]));
      if path.Err? {
        return Some(path.error);
      }
      var nodes := SelectNodes(data, context, path.value);
      if nodes.Err? {
        return Some(nodes.error);
      }
      var i := 0;
      while i < |nodes.value|
        invariant 0 <= i <= |nodes.value|
        invariant Ready(resource) && Kept(resource)
      {
        ghost var a1 := output.arena;
        MapDataNode(fuel, resource, node, nodes.value[i]);
        ArenaExtendsTransitive(old(output.arena), a1, output.arena);
        i := i + 1;
      }
      logged := None;
    }

    /** The children of a <mapping> run for one selected data node, whose
        output is then sealed as a named graph when the mapping's namedgraph
        attribute gives one value; an error, or a number of values other than
        one, is only written out. */
    method MapDataNode(fuel: nat, resource: ResourceNode?, node: ConfigNode, dataNode: DataNode)
      requires Ready(resource) && node.Element?
      modifies Repr, resource
      ensures Ready(resource) && Kept(resource)
      decreases fuel, node, 1
    {
      var _ := ExecConfig(fuel, resource, node, dataNode);
      if "namedgraph" in node.attributes {
        var graphs := GetValues(Variables(), data, dataNode, node, "namedgraph", None, 0, 0, rt);
        if graphs.Ok? && |graphs.value| == 1 {
          var uri := SanitiseUri(graphs.value[0]);
          ghost var a1 := output.arena;
          SealNamedGraph(resource, uri);
          ArenaExtendsTransitive(old(output.arena), a1, output.arena);
        }
      }
    }

    /** The output so far becomes the graph the URI names. */
    method SealNamedGraph(resource: ResourceNode?, uri: string)
      requires Ready(resource)
      modifies output`format, output`namespaces, output`store, output`entityLines, output`rootAttributes, output`roots
      ensures Ready(resource) && Kept(resource) && output.arena == old(output.arena)
      ensures output.format == GraphFormat(old(output.format))
      ensures output.store ==
        if rt.isAbsoluteUri(uri) then Some(StoreAdd(old(output.store).GetOr([]), uri, old(output.CurrentDocument())))
        else old(output.store)
      ensures rt.isAbsoluteUri(uri) ==>
        output.roots == [] && output.entityLines == EntityLines(namespaces) &&
        output.rootAttributes == XmlnsDeclarations(namespaces)
      ensures !rt.isAbsoluteUri(uri) ==> output.CurrentDocument() == old(output.CurrentDocument())
    {
      var _ := output.AddNamedGraphToCurrentNodes(uri, rt.isAbsoluteUri);
      ReadyAfterOutput(resource);
    }

    /** <resource>: a new rdf:Description under the root, identified when
        the resource has exactly one <identifier> child, whose children then
        run with it as their subject. */
    method DoResource(fuel: nat, node: ConfigNode, context: DataNode) returns (logged: Option<Exception>)
      requires Ready(null) && node.Element?
      modifies Repr
      ensures Ready(null) && Kept(null)
      ensures |ChildrenNamed(Children(node), "identifier")| == 1 ==> ChildrenNamed(Children(node), "identifier")[0].Element?
      ensures var ids := ChildrenNamed(Children(node), "identifier");
        |ids| == 1 ==>
          match IdentifierOf(old(Variables()), data, context, ids[0], namespaces, providers, rt)
          case Err(e) => logged == Some(e) && output.arena == old(output.arena)
          case Ok(id) =>
            logged.None? &&
            ArenaExtends(old(output.arena) + [Description(output.Rdf(), [About(output.Rdf(), id.0, id.1)])], output.arena)
      ensures |ChildrenNamed(Children(node), "identifier")| != 1 ==>
        logged.None? && ArenaExtends(old(output.arena) + [Description(output.Rdf(), [])], output.arena)
      decreases fuel, node, 1
    {
      var identifier := ResourceIdentifier(Variables(), data, context, node, namespaces, providers, rt);
      if identifier.Err? {
        return Some(identifier.error);
      }
      var handle := CreateDescription(identifier.value);
      ghost var created := output.arena;
      var resource := new ResourceNode(handle, identifier.value.Some?);
      var _ := ExecConfig(fuel, resource, node, context);
      ArenaExtendsTransitive(old(output.arena), created, output.arena);
      logged := None;
    }

    /** The rdf:Description of a <resource>, under the root, with the
        rdf:about of its identifier when it has one. */
    method CreateDescription(identifier: Option<(string, string)>) returns (handle: nat)
      requires Ready(null)
      modifies output`arena, output`roots
      ensures Ready(null) && handle == |old(output.arena)|
      ensures identifier.None? ==> output.arena == old(output.arena) + [Description(output.Rdf(), [])]
      ensures identifier.Some? ==>
        output.arena == old(output.arena) +
                        [Description(output.Rdf(), [About(output.Rdf(), identifier.value.0, identifier.value.1)])]
    {
      if identifier.Some? {
        handle := output.AddResourceWithIdentifier(identifier.value.0, identifier.value.1);
      } else {
        handle := output.AddResource();
      }
      ReadyAfterOutput(null);
    }

    /** <if>: the children run when the condition holds, and the flag an
        <else> reads says whether they did. A condition that cannot be
        evaluated leaves the flag as it was. */
    method DoIf(fuel: nat, resource: ResourceNode?, node: ConfigNode, context: DataNode)
      returns (logged: Option<Exception>)
      requires Ready(resource) && node.Element?
      modifies Repr, resource
      ensures Ready(resource) && Kept(resource)
      ensures match IfCondition(old(Variables()), data, context, node)
        case Err(e) =>
          logged == Some(e) && ifStatementMatch == old(ifStatementMatch) && output.arena == old(output.arena)
        case Ok(c) =>
          match IfRuns(c.0, c.1)
          case Err(e) => logged == Some(e) && !ifStatementMatch && output.arena == old(output.arena)
          case Ok(b) => logged.None? && ifStatementMatch == b && (!b ==> output.arena == old(output.arena))
      decreases fuel, node, 1
    {
      if "match" !in node.attributes {
        return Some(MissingAttribute("match"));
      }
      var m := MatchNestedInternalFunctionCalls(Variables(), RemoveClosingBrackets(node.attributes["match"]));
      if m.Err? {
        return Some(m.error);
      }
      var path := RemoveClosingBrackets(m.value);
      var result := data.evaluate(context, path);
      if result.Invalid? {
        return Some(XPathFailure(path));
      }
      ifStatementMatch := false;
      var runs := IfRuns(result, m.value);
      if runs.Err? {
        return Some(runs.error);
      }
      if runs.value {
        var _ := ExecConfig(fuel, resource, node, context);
        ifStatementMatch := true;
      }
      logged := None;
    }

    /** <else>: its children run when the last <if> did not run its own. */
    method DoElse(fuel: nat, resource: ResourceNode?, node: ConfigNode, context: DataNode)
      requires Ready(resource) && node.Element?
      modifies Repr, resource
      ensures Ready(resource) && Kept(resource)
      ensures old(ifStatementMatch) ==>
        unchanged(this) && unchanged(output) && (resource != null ==> unchanged(resource))
      decreases fuel, node, 1
    {
      if !ifStatementMatch {
        var _ := ExecConfig(fuel, resource, node, context);
      }
    }

    /** <switch>: its values are those its match attribute selects, if it
        has one; the <case> children are then visited in order until one
        fails or ends the switch, and the single <default> runs when no case
        body ran. The ghost results record the variables each visited case
        met, the exception the cases ended with, the case bodies that ran
        and whether the default ran. */
    method DoSwitch(fuel: nat, resource: ResourceNode?, node: ConfigNode, context: DataNode)
      returns (logged: Option<Exception>, ghost envs: seq<Env>, ghost caseError: Option<Exception>,
               ghost ranCases: seq<ConfigNode>, ghost ranDefault: bool)
      requires Ready(resource) && node.Element?
      modifies Repr, resource
      ensures Ready(resource) && Kept(resource)
      ensures match SwitchValuesOf(old(Variables()), data, context, node)
        case Err(e) => logged == Some(e) && envs == [] && ranCases == [] && !ranDefault
        case Ok(sv) => SwitchDone(node, sv, envs, caseError, ranCases, ranDefault, logged, data, context)
      decreases fuel, node, 3
    {
      var switchValues := SwitchValuesOf(Variables(), data, context, node);
      if switchValues.Err? {
        logged, envs, caseError, ranCases, ranDefault := Some(switchValues.error), [], None, [], false;
      } else {
        logged, envs, caseError, ranCases, ranDefault := SwitchOver(fuel, resource, node, switchValues.value, context);
      }
    }

    /** A <switch> over the values sv: its cases, then its default when no
        case body ran. */
    method SwitchOver(fuel: nat, resource: ResourceNode?, node: ConfigNode, sv: Option<seq<DataNode>>,
                      context: DataNode)
      returns (logged: Option<Exception>, ghost envs: seq<Env>, ghost caseError: Option<Exception>,
               ghost ranCases: seq<ConfigNode>, ghost ranDefault: bool)
      requires Ready(resource) && node.Element?
      modifies Repr, resource
      ensures Ready(resource) && Kept(resource)
      ensures SwitchDone(node, sv, envs, caseError, ranCases, ranDefault, logged, data, context)
      decreases fuel, node, 2
    {
      var cases := ChildrenNamed(Children(node), "case");
      var err, caseMatched;
      err, caseMatched, envs, ranCases := RunCases(fuel, resource, node, cases, sv, context);
      logged, caseError, ranDefault := err, err, false;
      if err.None? && !caseMatched {
        ghost var a1 := output.arena;
        logged, ranDefault := RunDefault(fuel, resource, node, context);
        ArenaExtendsTransitive(old(output.arena), a1, output.arena);
      }
    }

    /** The <case> children of a <switch> in order, each met with the
        variables of the moment, until one fails or ends the switch. */
    method RunCases(fuel: nat, resource: ResourceNode?, node: ConfigNode, cases: seq<ConfigNode>,
                    switchValues: Option<seq<DataNode>>, context: DataNode)
      returns (err: Option<Exception>, caseMatched: bool, ghost envs: seq<Env>, ghost ranCases: seq<ConfigNode>)
      requires Ready(resource) && node.Element? && cases == ChildrenNamed(Children(node), "case")
      modifies Repr, resource
      ensures Ready(resource) && Kept(resource)
      ensures CasesDone(cases, envs, err, ranCases, data, context, switchValues)
      ensures caseMatched <==> ranCases != []
      decreases fuel, node, 1
    {
      err, caseMatched, envs, ranCases := None, false, [], [];
      ghost var os: seq<CaseOutcome> := [];
      var i, done := 0, false;
      while i < |cases| && !done
        invariant i == |envs| <= |cases|
        invariant Ready(resource) && Kept(resource)
        invariant caseMatched <==> ranCases != []
        invariant if done then CasesDone(cases, envs, err, ranCases, data, context, switchValues)
                  else err.None? && AllWentOn(cases, envs, os, ranCases, data, context, switchValues)
      {
        ghost var a1 := output.arena;
        var stop;
        err, caseMatched, stop, envs, os, ranCases := VisitCase(fuel, resource, node, cases, i, switchValues, context,
                                                                caseMatched, envs, os, ranCases);
        ArenaExtendsTransitive(old(output.arena), a1, output.arena);
        done := err.Some? || stop;
        i := i + 1;
      }
      if !done {
        VisitedAll(cases, envs, os, ranCases, data, context, switchValues);
      }
    }

    /** The next <case> of a <switch> whose earlier cases all went on, met
        with the variables of the moment. */
    method VisitCase(fuel: nat, resource: ResourceNode?, node: ConfigNode, cases: seq<ConfigNode>, i: nat,
                     switchValues: Option<seq<DataNode>>, context: DataNode,
                     caseMatched: bool, ghost envs: seq<Env>, ghost os: seq<CaseOutcome>, ghost ranCases: seq<ConfigNode>)
      returns (err: Option<Exception>, caseMatched': bool, stop: bool,
               ghost envs': seq<Env>, ghost os': seq<CaseOutcome>, ghost ranCases': seq<ConfigNode>)
      requires Ready(resource) && node.Element? && cases == ChildrenNamed(Children(node), "case")
      requires AllWentOn(cases, envs, os, ranCases, data, context, switchValues) && i == |envs| < |cases|
      requires caseMatched <==> ranCases != []
      modifies Repr, resource
      ensures Ready(resource) && Kept(resource)
      ensures envs' == envs + [old(Variables())]
      ensures err.None? && !stop ==> AllWentOn(cases, envs', os', ranCases', data, context, switchValues)
      ensures err.Some? || stop ==> CasesDone(cases, envs', err, ranCases', data, context, switchValues)
      ensures caseMatched' <==> ranCases' != []
      decreases fuel, node, 0
    {
      var c := cases[i];
      NamedChildIsElement(Children(node), "case", c);
      ChildrenNamedAreChildren(node, "case", c);
      ghost var env := Variables();
      ghost var ran, o;
      var matched;
      err, matched, ran, stop, o := RunCase(fuel, resource, c, switchValues, context);
      Advance(cases, envs, os, ranCases, env, data, context, switchValues);
      envs', os', ranCases' := envs + [env], os + [o], ranCases + ran;
      caseMatched' := caseMatched || matched;
    }

    /** The <default> of a <switch> whose cases all passed: more than one is
        an error, and a single one runs. */
    method RunDefault(fuel: nat, resource: ResourceNode?, node: ConfigNode, context: DataNode)
      returns (logged: Option<Exception>, ranDefault: bool)
      requires Ready(resource) && node.Element?
      modifies Repr, resource
      ensures Ready(resource) && Kept(resource)
      ensures |ChildrenNamed(Children(node), "default")| > 1 ==> logged == Some(TooManyDefaults) && !ranDefault
      ensures |ChildrenNamed(Children(node), "default")| <= 1 ==>
        logged.None? && (ranDefault <==> |ChildrenNamed(Children(node), "default")| == 1)
      decreases fuel, node, 0
    {
      var defaults := ChildrenNamed(Children(node), "default");
      logged, ranDefault := None, false;
      if |defaults| > 1 {
        logged := Some(TooManyDefaults);
      } else if |defaults| == 1 {
        var d := defaults[0];
        ChildrenNamedAreChildren(node, "default", d);
        var _ := ExecConfig(fuel, resource, d, context);
        ranDefault := true;
      }
    }

    /** One <case>, met with the variables of the moment: its body runs as
        many times as its outcome says, and the ghost result records those
        runs. */
    method RunCase(fuel: nat, resource: ResourceNode?, c: ConfigNode, switchValues: Option<seq<DataNode>>,
                   context: DataNode)
      returns (err: Option<Exception>, matched: bool, ghost ran: seq<ConfigNode>, stop: bool, ghost o: CaseOutcome)
      requires Ready(resource) && c.Element?
      modifies Repr, resource
      ensures Ready(resource) && Kept(resource)
      ensures o == CaseOutcomeOf(c, old(Variables()), data, context, switchValues)
      ensures err == o.error && stop == o.stop && (matched <==> o.runs > 0) && ran == Copies(c, o.runs)
      decreases fuel, c, 2
    {
      o := CaseOutcomeOf(c, Variables(), data, context, switchValues);
      err, matched, ran, stop := None, false, [], false;
      if "match" in c.attributes {
        var m := CaseMatches(Variables(), data, context, c.attributes["match"]);
        if m.Err? {
          err := Some(m.error);
        } else if m.value {
          matched := true;
          var _ := ExecConfig(fuel, resource, c, context);
          stop := "break" !in c.attributes;
          ran := [c];
        }
      } else if "value" in c.attributes {
        if switchValues.None? {
          // the loop over the switch's values meets a null list
          err := Some(NullReference);
        } else {
          matched, ran, stop := RunValueCase(fuel, resource, c, switchValues.value, context);
        }
      } else {
        err := Some(CaseWithoutCondition);
      }
    }

    /** A value case over the switch's values, running its body for each
        value whose text is the case's value, until a run ends the switch. */
    method RunValueCase(fuel: nat, resource: ResourceNode?, c: ConfigNode, vs: seq<DataNode>, context: DataNode)
      returns (matched: bool, ghost ran: seq<ConfigNode>, stop: bool)
      requires Ready(resource) && c.Element? && "match" !in c.attributes && "value" in c.attributes
      modifies Repr, resource
      ensures Ready(resource) && Kept(resource)
      ensures var n := ValueRuns(data, vs, c.attributes["value"], "break" in c.attributes, 0);
        ran == Copies(c, n) && (matched <==> n > 0) && (stop <==> n > 0 && "break" in c.attributes)
      decreases fuel, c, 1
    {
      matched, ran, stop := false, [], false;
      var value := c.attributes["value"];
      var breaks := "break" in c.attributes;
      var j := 0;
      while j < |vs| && !stop
        invariant 0 <= j <= |vs|
        invariant Ready(resource) && Kept(resource)
        invariant ValueScan(c, data, vs, value, breaks, j, ran, stop) && (matched <==> ran != [])
      {
        ValueStep(c, data, vs, value, breaks, j, ran);
        if data.innerText(vs[j]) == value {
          matched := true;
          ghost var a1 := output.arena;
          var _ := ExecConfig(fuel, resource, c, context);
          ArenaExtendsTransitive(old(output.arena), a1, output.arena);
          stop := breaks;
          ran := ran + [c];
        }
        j := j + 1;
      }
      ValueScanEnd(c, data, vs, value, breaks, j, ran, stop);
    }

    /** <triple>: one predicate element under the subject per value that
        gives one, all or none of them. */
    method DoTriple(resource: ResourceNode?, node: ConfigNode, context: DataNode) returns (logged: Option<Exception>)
      requires Ready(resource) && node.Element?
      modifies output`arena
      ensures Ready(resource)
      ensures ArenaExtends(old(output.arena), output.arena)
      ensures match TriplePlan(old(Variables()), data, context, node, namespaces, providers, rt)
        case Err(e) => logged == Some(e) && output.arena == old(output.arena)
        case Ok(plan) =>
          (output.arena, logged) ==
            AttachOutcome(old(output.arena), SubjectOf(resource),
                          TripleFailure(node, namespaces, plan.0, plan.1, "object" in node.attributes), plan.2)
    {
      ghost var expected := TriplePlan(Variables(), data, context, node, namespaces, providers, rt);
      var plan := TripleValues(Variables(), data, context, node, providers, rt);
      if plan.Err? {
        assert expected == Err(plan.error);
        return Some(plan.error);
      }
      var (predNs, predName, isObject, vs) := plan.value;
      ghost var es := TripleElements(node, namespaces, predNs + ":" + predName,
                                     Lookup(namespaces, predNs).GetOr(""), isObject, vs);
      ghost var failure := TripleFailure(node, namespaces, predNs, predName, isObject);
      assert isObject == ("object" in node.attributes);
      assert expected.Ok?;
      assert expected.value == (predNs, predName, es);
      logged := AddTripleElements(resource, node, predNs, predName, isObject, vs);
      AttachOutcomeExtends(old(output.arena), SubjectOf(resource), failure, es);
    }

    /** The loop of DoTriple over its values. */
    method AddTripleElements(resource: ResourceNode?, node: ConfigNode, predNs: string, predName: string,
                             isObject: bool, vs: seq<string>) returns (logged: Option<Exception>)
      requires Ready(resource) && node.Element?
      modifies output`arena
      ensures Ready(resource)
      ensures (output.arena, logged) ==
        AttachOutcome(old(output.arena), SubjectOf(resource), TripleFailure(node, namespaces, predNs, predName, isObject),
                      TripleElements(node, namespaces, predNs + ":" + predName,
                                     Lookup(namespaces, predNs).GetOr(""), isObject, vs))
    {
      ghost var a0 := output.arena;
      ghost var pred := predNs + ":" + predName;
      ghost var predUri := Lookup(namespaces, predNs).GetOr("");
      ghost var failure := TripleFailure(node, namespaces, predNs, predName, isObject);
      var i := 0;
      while i < |vs|
        invariant 0 <= i <= |vs|
        invariant Ready(resource)
        invariant AttachOutcome(a0, SubjectOf(resource), failure,
                                TripleElements(node, namespaces, pred, predUri, isObject, vs[..i])) == (output.arena, None)
      {
        ghost var before := TripleElements(node, namespaces, pred, predUri, isObject, vs[..i]);
        ghost var e := TripleElement(node, namespaces, pred, predUri, isObject, vs[i]);
        ghost var a1 := output.arena;
        TripleElementsSnoc(node, namespaces, pred, predUri, isObject, vs, i);
        var r := AddTripleElement(resource, node, predNs, predName, isObject, vs[i]);
        if r.Err? {
          TripleElementsPrefix(node, namespaces, pred, predUri, isObject, vs, i + 1);
          AttachOutcomeFirstFailure(a0, SubjectOf(resource), failure, before, e.value,
                                    TripleElements(node, namespaces, pred, predUri, isObject, vs), a1);
          return Some(r.error);
        }
        AttachOutcomeSnoc(a0, SubjectOf(resource), failure, before, e, a1, output.arena);
        i := i + 1;
      }
      assert vs[..i] == vs;
      logged := None;
    }

    /** One value of a <triple>: its object or its literal element. */
    method AddTripleElement(resource: ResourceNode?, node: ConfigNode, predNs: string, predName: string,
                            isObject: bool, v: string) returns (r: Result<()>)
      requires Ready(resource) && node.Element?
      modifies output`arena
      ensures Ready(resource)
      ensures var e := TripleElement(node, namespaces, predNs + ":" + predName, Lookup(namespaces, predNs).GetOr(""),
                                     isObject, v);
        (e.None? ==> r.Ok? && output.arena == old(output.arena)) &&
        (e.Some? && resource == null ==> r == Err(NullReference) && output.arena == old(output.arena)) &&
        var f := TripleFailure(node, namespaces, predNs, predName, isObject);
        (e.Some? && resource != null && f.Some? ==> r == Err(f.value) && output.arena == old(output.arena)) &&
        (e.Some? && resource != null && f.None? ==>
           r.Ok? && output.arena == AttachNew(old(output.arena), resource.xmlResourceNode, e.value))
    {
      if isObject {
        r := AddObject(resource, predNs, predName, v);
      } else {
        r := AddLiteral(resource, node, predNs, predName, v);
      }
    }

    /** One object of a <triple>, added unless it is blank once cleaned. */
    method AddObject(resource: ResourceNode?, predNs: string, predName: string, v: string) returns (r: Result<()>)
      requires Ready(resource)
      modifies output`arena
      ensures Ready(resource)
      ensures var e := ObjectElement(namespaces, predNs + ":" + predName, Lookup(namespaces, predNs).GetOr(""), v);
        (e.None? ==> r.Ok? && output.arena == old(output.arena)) &&
        (e.Some? && resource == null ==> r == Err(NullReference) && output.arena == old(output.arena)) &&
        var f := ObjectFailure(namespaces, predNs, predName, "rdf", "resource");
        (e.Some? && resource != null && f.Some? ==> r == Err(f.value) && output.arena == old(output.arena)) &&
        (e.Some? && resource != null && f.None? ==>
           r.Ok? && output.arena == AttachNew(old(output.arena), resource.xmlResourceNode, e.value))
    {
      var clean := SanitiseUri(v);
      if IsBlank(clean) {
        return Ok(());
      }
      if resource == null {
        return Err(NullReference);
      }
      r := AttachObject(resource, predNs, predName, clean);
    }

    /** The predicate element of a cleaned, non-blank object, attached under
        the subject. */
    method AttachObject(resource: ResourceNode, predNs: string, predName: string, clean: string) returns (r: Result<()>)
      requires Ready(resource)
      modifies output`arena
      ensures Ready(resource)
      ensures var short := ShortUriOf(namespaces, clean);
        var e := PredicateObjectElement(predNs + ":" + predName, Lookup(namespaces, predNs).GetOr(""),
                                        "rdf" + ":" + "resource", Lookup(namespaces, "rdf").GetOr(""), short.0, short.1);
        var f := ObjectFailure(namespaces, predNs, predName, "rdf", "resource");
        (f.Some? ==> r == Err(f.value) && output.arena == old(output.arena)) &&
        (f.None? ==> r.Ok? && output.arena == AttachNew(old(output.arena), resource.xmlResourceNode, e))
    {
      var prefix, shortUri := ShortUri(namespaces, clean);
      r := output.AddPredicateAndObject(resource.xmlResourceNode, predNs, predName, "rdf", "resource", prefix, shortUri);
      ReadyAfterOutput(resource);
    }

    /** One literal of a <triple>, added unless it is empty. */
    method AddLiteral(resource: ResourceNode?, node: ConfigNode, predNs: string, predName: string, lit: string)
      returns (r: Result<()>)
      requires Ready(resource) && node.Element?
      modifies output`arena
      ensures Ready(resource)
      ensures var e := LiteralElement(node, Lookup(namespaces, "rdf").GetOr(""), predNs + ":" + predName,
                                      Lookup(namespaces, predNs).GetOr(""), lit);
        (e.None? ==> r.Ok? && output.arena == old(output.arena)) &&
        (e.Some? && resource == null ==> r == Err(NullReference) && output.arena == old(output.arena)) &&
        var f := TripleFailure(node, namespaces, predNs, predName, false);
        (e.Some? && resource != null && f.Some? ==> r == Err(f.value) && output.arena == old(output.arena)) &&
        (e.Some? && resource != null && f.None? ==>
           r.Ok? && output.arena == AttachNew(old(output.arena), resource.xmlResourceNode, e.value))
    {
      if lit == "" {
        return Ok(());
      }
      var text := SanitiseString(Trim(lit));
      if resource == null {
        return Err(NullReference);
      }
      if "type" in node.attributes {
        r := output.AddPredicateAndLiteralWithType(resource.xmlResourceNode, predNs, predName, text,
                                                   node.attributes["type"]);
      } else if "language" in node.attributes {
        r := output.AddPredicateAndLiteralWithLanguage(resource.xmlResourceNode, predNs, predName, text,
                                                       node.attributes["language"]);
      } else {
        r := output.AddPredicateAndLiteral(resource.xmlResourceNode, predNs, predName, text);
      }
      ReadyAfterOutput(resource);
    }

    /** <type>: one rdf:type element under the subject per value. */
    method DoType(resource: ResourceNode?, node: ConfigNode, context: DataNode) returns (logged: Option<Exception>)
      requires Ready(resource) && node.Element?
      modifies output`arena
      ensures Ready(resource)
      ensures ArenaExtends(old(output.arena), output.arena)
      ensures match TypePlan(old(Variables()), data, context, node, namespaces, rt)
        case Err(e) => logged == Some(e) && output.arena == old(output.arena)
        case Ok(es) =>
          (output.arena, logged) == AttachOutcome(old(output.arena), SubjectOf(resource), TypeFailure(namespaces), es)
    {
      var types := GetValues(Variables(), data, context, node, "value", None, 1, 0, rt);
      if types.Err? {
        return Some(types.error);
      }
      logged := AddTypeElements(resource, types.value);
      AttachOutcomeExtends(old(output.arena), SubjectOf(resource), TypeFailure(namespaces), TypeElements(namespaces, types.value));
    }

    /** The loop of DoType over its values. */
    method AddTypeElements(resource: ResourceNode?, vs: seq<string>) returns (logged: Option<Exception>)
      requires Ready(resource)
      modifies output`arena
      ensures Ready(resource)
      ensures (output.arena, logged) ==
        AttachOutcome(old(output.arena), SubjectOf(resource), TypeFailure(namespaces), TypeElements(namespaces, vs))
    {
      ghost var a0 := output.arena;
      ghost var es := TypeElements(namespaces, vs);
      var i := 0;
      while i < |vs|
        invariant 0 <= i <= |vs|
        invariant Ready(resource)
        invariant AttachOutcome(a0, SubjectOf(resource), TypeFailure(namespaces), es[..i]) == (output.arena, None)
      {
        assert es[..i + 1] == es[..i] + [es[i]];
        if resource == null {
          AttachOutcomeFirstFailure(a0, None, TypeFailure(namespaces), es[..i], es[i], es, output.arena);
          return Some(NullReference);
        }
        ghost var a1 := output.arena;
        var prefix, uri := ShortUri(namespaces, vs[i]);
        label BeforeAdd:
        var r := output.AddPredicateAndObject(resource.xmlResourceNode, "rdf", "type", "rdf", "resource", prefix, uri);
        ReadyAfterOutput@BeforeAdd(resource);
        assert TypeFailure(namespaces).None?;
        assert r.Ok?;
        AttachOutcomeSnoc(a0, SubjectOf(resource), TypeFailure(namespaces), es[..i], Some(es[i]), a1, output.arena);
        i := i + 1;
      }
      assert es[..i] == es;
      logged := None;
    }

    /** <bnode>: a blank predicate element under the subject holding a blank
        type element, which is the subject of the children. Both elements are
        created before the subject is read, so without a subject they stay in
        the output, outside the tree. */
    method DoBnode(fuel: nat, resource: ResourceNode?, node: ConfigNode, context: DataNode)
      returns (logged: Option<Exception>)
      requires Ready(resource) && node.Element?
      modifies Repr, resource
      ensures Ready(resource) && Kept(resource)
      ensures "predicate" !in node.attributes ==>
        logged == Some(MissingAttribute("predicate")) && output.arena == old(output.arena)
      ensures "predicate" in node.attributes && "type" !in node.attributes ==>
        logged == Some(MissingAttribute("type")) && output.arena == old(output.arena)
      ensures "predicate" in node.attributes && "type" in node.attributes ==>
        var (a1, e) := BnodeOutcome(old(output.arena), old(SubjectOf(resource)),
                                    BlankNodeElement(namespaces, node.attributes["predicate"]),
                                    BlankNodeElement(namespaces, node.attributes["type"]));
        logged == e && (e.Some? ==> output.arena == a1) && (e.None? ==> ArenaExtends(a1, output.arena))
      decreases fuel, node, 2
    {
      if "predicate" !in node.attributes {
        logged := Some(MissingAttribute("predicate"));
      } else if "type" !in node.attributes {
        logged := Some(MissingAttribute("type"));
      } else {
        ghost var a0 := output.arena;
        var typeHandle;
        logged, typeHandle := BuildBnode(resource, node);
        if logged.None? {
          ghost var built := output.arena;
          RunBnodeChildren(fuel, resource, typeHandle, node, context);
          ArenaExtendsTransitive(a0, built, output.arena);
        }
      }
    }

    /** The children of a <bnode>, run with its type element as the subject. */
    method RunBnodeChildren(fuel: nat, resource: ResourceNode?, typeHandle: nat, node: ConfigNode, context: DataNode)
      requires Ready(resource) && node.Element? && typeHandle < |output.arena|
      modifies Repr
      ensures Ready(resource) && Kept(resource)
      decreases fuel, node, 1
    {
      var typeResource := new ResourceNode(typeHandle, false);
      var _ := ExecConfig(fuel, typeResource, node, context);
    }

    /** The two elements of a <bnode>, the type inside the predicate and the
        predicate under the subject; without a subject the predicate stays
        detached. */
    method BuildBnode(resource: ResourceNode?, node: ConfigNode) returns (logged: Option<Exception>, typeHandle: nat)
      requires Ready(resource) && node.Element? && "predicate" in node.attributes && "type" in node.attributes
      modifies output`arena
      ensures Ready(resource)
      ensures (output.arena, logged) ==
        BnodeOutcome(old(output.arena), SubjectOf(resource),
                     BlankNodeElement(namespaces, node.attributes["predicate"]),
                     BlankNodeElement(namespaces, node.attributes["type"]))
      ensures logged.None? ==> typeHandle == |old(output.arena)| + 1
    {
      ghost var a0 := output.arena;
      label Start:
      var p := output.AddBnode(node.attributes["predicate"]);
      if p.Err? {
        return Some(p.error), 0;
      }
      ghost var pe := output.arena[p.value];
      assert output.arena == a0 + [pe];
      assert BlankNodeElement(namespaces, node.attributes["predicate"]) == Ok(pe);
      NewestDetached(a0, output.roots, pe);
      ReadyAfterOutput@Start(resource);
      logged, typeHandle := BuildTypeBnode(resource, node, a0, pe);
    }

    /** The rest of BuildBnode once the predicate element pe is the newest
        element: the type element, then the links. */
    method BuildTypeBnode(resource: ResourceNode?, node: ConfigNode, ghost a0: seq<Element>, ghost pe: Element)
      returns (logged: Option<Exception>, typeHandle: nat)
      requires Ready(resource) && node.Element? && "type" in node.attributes
      requires output.arena == a0 + [pe] && pe.children == [] && Detached(output.arena, output.roots, |a0|)
      requires resource != null ==> resource.xmlResourceNode < |a0|
      modifies output`arena
      ensures Ready(resource)
      ensures (output.arena, logged) ==
        BnodeOutcome(a0, SubjectOf(resource), Ok(pe), BlankNodeElement(namespaces, node.attributes["type"]))
      ensures logged.None? ==> typeHandle == |a0| + 1
    {
      label Start:
      var t := output.AddBnode(node.attributes["type"]);
      if t.Err? {
        assert BlankNodeElement(namespaces, node.attributes["type"]) == Err(t.error);
        ReadyAfterOutput@Start(resource);
        return Some(t.error), 0;
      }
      ghost var te := output.arena[t.value];
      assert output.arena == a0 + [pe, te];
      assert BlankNodeElement(namespaces, node.attributes["type"]) == Ok(te);
      NewestDetached(a0 + [pe], output.roots, te);
      DetachedStays(a0 + [pe], output.roots, |a0|, te);
      ReadyAfterOutput@Start(resource);
      logged := LinkBnode(resource, a0, pe, te);
      typeHandle := if resource == null then 0 else t.value;
    }

    /** The predicate element pe, the newest but one, adopts the type
        element te after it, and the subject adopts the predicate element;
        without a subject reading its element throws. */
    method LinkBnode(resource: ResourceNode?, ghost a0: seq<Element>, ghost pe: Element, ghost te: Element)
      returns (logged: Option<Exception>)
      requires Ready(resource) && output.arena == a0 + [pe, te] && pe.children == []
      requires Detached(output.arena, output.roots, |a0|) && Detached(output.arena, output.roots, |a0| + 1)
      requires resource != null ==> resource.xmlResourceNode < |a0|
      modifies output`arena
      ensures Ready(resource) && output.arena == BnodeArena(a0, SubjectOf(resource), pe, te)
      ensures logged == if resource == null then Some(NullReference) else None
    {
      var ph := |output.arena| - 2;
      ghost var tail := [pe.(children := [|a0| + 1]), te];
      output.AppendChild(ph, ph + 1);
      assert pe.children + [ph + 1] == [ph + 1];
      assert output.arena == a0 + tail;
      if resource == null {
        ReadyAfterOutput(resource);
        return Some(NullReference);
      }
      var h := resource.xmlResourceNode;
      output.AppendChild(h, ph);
      assert output.arena == a0[h := a0[h].(children := a0[h].children + [ph])] + tail;
      ReadyAfterOutput(resource);
      logged := None;
    }

    // -------------------------------------------------------------------
    // The walk

    /** One child's handler, and the error that escapes it: only the
        handlers without a catch of their own let one escape. An <identifier>
        is passed over once the subject has one, and without a subject
        reading that flag throws. */
    method Invoke(fuel: nat, resource: ResourceNode?, h: Handler, child: ConfigNode, context: DataNode)
      returns (escaped: Option<Exception>)
      requires Ready(resource) && child.Element?
      modifies Repr, resource
      ensures Ready(resource) && Kept(resource)
      ensures escaped.Some? ==> Escapes(h)
      decreases fuel, child, 5
    {
      if h in {Handler.DoError, Handler.DoCounter, Handler.DoUniqueidentifier} {
        escaped := InvokeCommand(resource, h, child);
      } else if Escapes(h) {
        escaped := InvokeEscaping(fuel, resource, h, child, context);
      } else {
        InvokeCatching(fuel, resource, h, child, context);
        escaped := None;
      }
    }

    /** The handlers without a catch of their own: what they throw is what
        escapes. */
    method InvokeEscaping(fuel: nat, resource: ResourceNode?, h: Handler, child: ConfigNode, context: DataNode)
      returns (escaped: Option<Exception>)
      requires Ready(resource) && child.Element? && h in {Handler.DoIdentifier, Handler.DoUsenamedmapping}
      modifies Repr, resource
      ensures Ready(resource) && Kept(resource)
      ensures h == Handler.DoIdentifier && resource == null ==> escaped == Some(NullReference)
      ensures h == Handler.DoIdentifier && resource != null && old(resource.hasIdentifier) ==>
        escaped.None? && output.arena == old(output.arena)
      ensures h == Handler.DoIdentifier && resource != null && !old(resource.hasIdentifier) ==>
        resource.hasIdentifier &&
        match old(IdentifierOf(Variables(), data, context, child, namespaces, providers, rt))
        case Err(e) => escaped == Some(e) && output.arena == old(output.arena)
        case Ok(_) => escaped.None?
      ensures h == Handler.DoUsenamedmapping ==>
        match NamedMappingOf(config, child, selectConfig)
        case Err(e) => escaped == Some(e) && output.arena == old(output.arena)
        case Ok(_) => escaped == if fuel == 0 then Some(NestingTooDeep) else None
      decreases fuel, child, 4
    {
      escaped := None;
      match h
      case DoIdentifier =>
        if resource == null {
          escaped := Some(NullReference);
        } else if !resource.hasIdentifier {
          var r := DoIdentifier(resource, child, context);
          SubjectIdentifiedKept(resource);
          escaped := Thrown(r);
        }
      case DoUsenamedmapping =>
        var r := DoUsenamedmapping(fuel, resource, child, context);
        escaped := Thrown(r);
    }

    /** The commands without a catch of their own that touch no element. */
    method InvokeCommand(resource: ResourceNode?, h: Handler, child: ConfigNode) returns (escaped: Option<Exception>)
      requires Ready(resource) && child.Element? && h in {Handler.DoError, Handler.DoCounter, Handler.DoUniqueidentifier}
      modifies Repr
      ensures Ready(resource) && Kept(resource)
      ensures h == Handler.DoError ==>
        match ErrorExit(child)
        case Err(e) => escaped == Some(e)
        case Ok(exit) =>
          escaped == if resource == null then Some(NullReference)
                     else if exit then Some(UserError(child.attributes["message"])) else None
      ensures h == Handler.DoCounter ==> CounterEffect(child, old(CounterTable()), CounterTable(), escaped)
      ensures h == Handler.DoUniqueidentifier ==>
        IdentifierEffect(child, old(Variables()), Variables(), GenerateUniqueId(seeds(old(generated))),
                         old(generated), generated, escaped)
    {
      if h == Handler.DoError {
        var r := DoError(resource, child);
        escaped := Thrown(r);
      } else if h == Handler.DoCounter {
        escaped := InvokeCounter(resource, child);
      } else {
        escaped := InvokeUniqueidentifier(resource, child);
      }
    }

    /** <counter>, which changes only the counters. */
    method InvokeCounter(resource: ResourceNode?, child: ConfigNode) returns (escaped: Option<Exception>)
      requires Ready(resource) && child.Element?
      modifies Repr
      ensures Ready(resource) && Kept(resource)
      ensures CounterEffect(child, old(CounterTable()), CounterTable(), escaped)
    {
      var r := DoCounter(child);
      VariablesChangedKept(resource);
      escaped := Thrown(r);
    }

    /** <uniqueidentifier>, which changes only the unique identifiers. */
    method InvokeUniqueidentifier(resource: ResourceNode?, child: ConfigNode) returns (escaped: Option<Exception>)
      requires Ready(resource) && child.Element?
      modifies Repr
      ensures Ready(resource) && Kept(resource)
      ensures IdentifierEffect(child, old(Variables()), Variables(), GenerateUniqueId(seeds(old(generated))),
                               old(generated), generated, escaped)
    {
      var r := DoUniqueidentifier(child);
      VariablesChangedKept(resource);
      escaped := Thrown(r);
    }

    /** The handlers that catch and log their own exceptions. */
    method InvokeCatching(fuel: nat, resource: ResourceNode?, h: Handler, child: ConfigNode, context: DataNode)
      requires Ready(resource) && child.Element? && !Escapes(h)
      modifies Repr, resource
      ensures Ready(resource) && Kept(resource)
      decreases fuel, child, 4
    {
      match h
      case DoMapping =>
        var _ := DoMapping(fuel, resource, child, context);
      case DoResource =>
        var _ := DoResource(fuel, child, context);
        SubjectKept(resource);
      case DoIf =>
        var _ := DoIf(fuel, resource, child, context);
      case DoElse =>
        DoElse(fuel, resource, child, context);
      case DoSwitch =>
        var _, _, _, _, _ := DoSwitch(fuel, resource, child, context);
      case DoTriple =>
        var _ := DoTriple(resource, child, context);
        OutputGrownKept(resource);
      case DoType =>
        var _ := DoType(resource, child, context);
        OutputGrownKept(resource);
      case DoBnode =>
        var _ := DoBnode(fuel, resource, child, context);
    }

    /** A handler that leaves the subject alone keeps it ready and kept. */
    twostate lemma SubjectKept(resource: ResourceNode?)
      requires old(Ready(resource)) && Ready(null) && Kept(null)
      requires resource != null ==> unchanged(resource)
      ensures Ready(resource) && Kept(resource)
    {
    }

    /** Identifying the subject and growing the output's elements keeps
        everything Kept speaks of. */
    twostate lemma SubjectIdentifiedKept(resource: ResourceNode)
      requires old(Ready(resource)) && Ready(resource) && unchanged(this)
      requires resource.xmlResourceNode == old(resource.xmlResourceNode) && resource.hasIdentifier
      requires output.outputPath == old(output.outputPath) && ArenaExtends(old(output.arena), output.arena)
      ensures Kept(resource)
    {
    }

    /** Growing the output's elements alone keeps everything Kept speaks of. */
    twostate lemma OutputGrownKept(resource: ResourceNode?)
      requires old(Ready(resource)) && Ready(resource) && unchanged(this)
      requires resource != null ==> unchanged(resource)
      requires output.outputPath == old(output.outputPath) && ArenaExtends(old(output.arena), output.arena)
      ensures Kept(resource)
    {
    }

    /** A change to the counters or identifiers alone keeps the subject ready
        and everything Kept speaks of. */
    twostate lemma VariablesChangedKept(resource: ResourceNode?)
      requires old(Ready(resource)) && Valid()
      requires output == old(output) && namespaces == old(namespaces) && unchanged(output)
      requires resource != null ==> unchanged(resource)
      requires old(Repr) <= Repr && fresh(Repr - old(Repr))
      ensures Ready(resource) && Kept(resource)
    {
    }

    /** One child of ExecConfig's walk: text and comments are passed over,
        an element runs the handler its tag selects, and anything else is an
        unknown tag. The error it gives back ends the walk of its siblings. */
    method ExecChild(fuel: nat, resource: ResourceNode?, child: ConfigNode, context: DataNode)
      returns (logged: Option<Exception>)
      requires Ready(resource)
      modifies Repr, resource
      ensures Ready(resource) && Kept(resource)
      ensures logged.None? ==> !NodeDispatch(child).Fail?
      ensures logged.Some? ==> MayEndSiblings(child)
      decreases fuel, child, 6
    {
      match NodeDispatch(child)
      case Skip =>
        logged := None;
      case Fail(e) =>
        logged := Some(e);
      case Run(h) =>
        logged := Invoke(fuel, resource, h, child, context);
    }

    /** ExecConfig: the children of node in order, each by the handler its
        tag selects, with text and comments passed over; an unknown tag or an
        error escaping a handler ends the walk, which logs it. Recursion
        through <usenamedmapping> spends one unit of fuel. */
    method ExecConfig(fuel: nat, resource: ResourceNode?, node: ConfigNode, context: DataNode)
      returns (logged: Option<Exception>)
      requires Ready(resource)
      modifies Repr, resource
      ensures Ready(resource) && Kept(resource)
      ensures logged.None? ==> forall k :: 0 <= k < |Children(node)| ==> !NodeDispatch(Children(node)[k]).Fail?
      ensures logged.Some? ==> exists k :: 0 <= k < |Children(node)| && MayEndSiblings(Children(node)[k])
      decreases fuel, node, 0
    {
      var children := Children(node);
      var i := 0;
      while i < |children|
        invariant 0 <= i <= |children|
        invariant Ready(resource) && Kept(resource)
        invariant NoneUnknown(children[..i])
      {
        assert children[i] in node.children;
        logged := ExecChild(fuel, resource, children[i], context);
        if logged.Some? {
          return;
        }
        assert children[..i + 1][..i] == children[..i];
        i := i + 1;
      }
      assert children[..i] == children;
      NoneUnknownEach(children);
      logged := None;
    }

    // -------------------------------------------------------------------
    // Start

    /** The three namespaces every run starts with. */
    method InitialiseNamespaces()
      requires Valid() && output == null
      modifies this`namespaces
      ensures Valid() && namespaces == DefaultNamespaces
    {
      namespaces := DefaultNamespaces;
    }

    /** GetNamespaces: each <namespace> child binds its prefix unless it is
        bound already; the first bad child ends the loop, and its error and a
        missing <namespaces> are logged. */
    method GetNamespaces(namespacesNode: Option<ConfigNode>) returns (logged: Option<Exception>)
      requires Valid() && output == null
      modifies this`namespaces
      ensures Valid()
      ensures (namespaces, logged) == GetNamespacesOf(old(namespaces), namespacesNode)
    {
      if namespacesNode.None? {
        return Some(MissingElement("namespaces"));
      }
      var nodes := Children(namespacesNode.value);
      var i := 0;
      while i < |nodes|
        invariant 0 <= i <= |nodes|
        invariant Valid()
        invariant NamespacesFrom(namespaces, nodes[i..]) == GetNamespacesOf(old(namespaces), namespacesNode)
      {
        assert nodes[i..][1..] == nodes[i + 1..];
        var entry := NamespaceEntry(nodes[i]);
        if entry.Err? {
          return Some(entry.error);
        }
        if !HasPrefix(namespaces, entry.value.0) {
          namespaces := namespaces + [entry.value];
        }
        i := i + 1;
      }
      logged := None;
    }

    /** Start: the namespace table, then the output file named after the
        data file, then every <config> element of the configuration walked
        from the data document's root without a subject. A data file name
        without '.' ends the run before anything is output. */
    method Start(fuel: nat) returns (logged: Option<Exception>)
      requires Valid() && output == null
      modifies Repr
      ensures Valid()
      ensures namespaces == GetNamespacesOf(DefaultNamespaces, NamespacesNode(config)).0
      ensures DistinctPrefixes(namespaces) && HasPrefix(namespaces, "rdf")
      ensures OutputFile(outputPath, dataPath).Err? ==> logged == Some(ArgumentOutOfRange) && output == null
      ensures OutputFile(outputPath, dataPath).Ok? && XmlnsFailure(namespaces).Some? ==>
        logged == XmlnsFailure(namespaces) && output == null
      ensures OutputFile(outputPath, dataPath).Ok? && XmlnsFailure(namespaces).None? ==>
        logged.None? && output != null && fresh(output) &&
        output.outputPath == OutputFile(outputPath, dataPath).value && output.namespaces == namespaces
    {
      PrepareNamespaces();
      var file := OutputFile(outputPath, dataPath);
      if file.Err? {
        return Some(file.error);
      }
      // the RdfOutput constructor's SetAttribute("xmlns:" + prefix, uri)
      var bad := XmlnsFailure(namespaces);
      if bad.Some? {
        return bad;
      }
      OpenAndRun(file.value, fuel);
      logged := None;
    }

    /** The output opened at file, then every <config> element run into it. */
    method OpenAndRun(file: string, fuel: nat)
      requires Valid() && output == null && DistinctPrefixes(namespaces) && HasPrefix(namespaces, "rdf")
      requires AllDeclarable(namespaces)
      modifies Repr, this`output, this`Repr
      ensures Valid() && namespaces == old(namespaces)
      ensures output != null && fresh(output) && output.outputPath == file && output.namespaces == namespaces
    {
      OpenOutput(file);
      RunConfigs(fuel);
    }

    /** The default namespaces, then those of the configuration's
        <namespaces>. */
    method PrepareNamespaces()
      requires Valid() && output == null
      modifies this`namespaces
      ensures Valid()
      ensures namespaces == GetNamespacesOf(DefaultNamespaces, NamespacesNode(config)).0
      ensures DistinctPrefixes(namespaces) && HasPrefix(namespaces, "rdf")
    {
      InitialiseNamespaces();
      var _ := GetNamespaces(NamespacesNode(config));
      DefaultNamespacesUsable();
      var nodes := if NamespacesNode(config).Some? then Children(NamespacesNode(config).value) else [];
      NamespacesExtend(DefaultNamespaces, nodes);
      assert namespaces[1] == DefaultNamespaces[1];
    }

    /** new RdfOutput(file, namespaces, format): the output the run writes. */
    method OpenOutput(file: string)
      requires Valid() && output == null && DistinctPrefixes(namespaces) && HasPrefix(namespaces, "rdf")
      requires AllDeclarable(namespaces)
      modifies this`output, this`Repr
      ensures Ready(null) && fresh(output) && output.outputPath == file
      ensures old(Repr) <= Repr && fresh(Repr - old(Repr))
    {
      var o := new RdfOutput(file, namespaces, ParseFormat(format));
      output := o;
      Repr := Repr + {o};
    }

    /** Every <config> element of the configuration, walked from the data
        document's root without a subject. */
    method RunConfigs(fuel: nat)
      requires Ready(null)
      modifies Repr
      ensures Ready(null) && Kept(null)
    {
      var configs := ElementsByTagName(config, "config");
      var i := 0;
      while i < |configs|
        invariant 0 <= i <= |configs|
        invariant Ready(null) && Kept(null)
      {
        ghost var a1 := output.arena;
        var _ := ExecConfig(fuel, null, configs[i], data.root);
        ArenaExtendsTransitive(old(output.arena), a1, output.arena);
        i := i + 1;
      }
    }
  }
}
