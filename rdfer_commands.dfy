// The decisions the interpreter's handlers take from a configuration
// element and from values alone (RDFer/RDFer.cs): how <error>, <counter>
// and <uniqueidentifier> read their attributes and what a counter command
// does to the counters, how <triple> splits its predicate, which XPath
// results make an <if> run its body, how <namespaces> extends the namespace
// table, and the output file name Start derives from the data file.

module RdferCommands {
  import opened Wrappers
  import opened DotNet
  import opened RdfOutputs
  import opened RdferConfig
  import opened RdferValues
  import opened Counters

  // ---------------------------------------------------------------------
  // <error message="..." exit="...">

  /** Whether an <error> ends the enclosing sequence: it does when exit
      parses as true; a missing message and an exit bool.TryParse refuses
      are configuration errors. */
  function ErrorExit(node: ConfigNode): (r: Result<bool>)
    requires node.Element?
    ensures "message" !in node.attributes ==> r == Err(MissingAttribute("message"))
    ensures r.Ok? <==> "message" in node.attributes &&
                       ("exit" in node.attributes ==> ParseBool(node.attributes["exit"]).Some?)
    ensures r == Ok(true) <==> "message" in node.attributes && "exit" in node.attributes &&
                               ToLower(TrimBy(node.attributes["exit"], IsWhiteOrNul)) == "true"
  {
    if "message" !in node.attributes then Err(MissingAttribute("message"))
    else if "exit" !in node.attributes then Ok(false)
    else match ParseBool(node.attributes["exit"])
      case Some(b) => Ok(b)
      case None => Err(InvalidValue(node.attributes["exit"]))
  }

  // ---------------------------------------------------------------------
  // <counter name="..." iteration="..." initialValue="..." iterate="...">

  datatype CounterCommand =
    | IterateExisting(name: string)
    | Reset(name: string, value: int, direction: Iteration)

  /** The direction named by an iteration attribute: "decrement", ignoring
      case and surrounding white space, and otherwise Increment. */
  function DirectionOf(node: ConfigNode): (r: Iteration)
    requires node.Element?
    ensures r == Decrement <==> "iteration" in node.attributes &&
                                ToLower(Trim(node.attributes["iteration"])) == "decrement"
  {
    if "iteration" in node.attributes && ToLower(Trim(node.attributes["iteration"])) == "decrement"
    then Decrement else Increment
  }

  /** What a <counter> asks for. The attributes are checked in the order
      name, initialValue, iterate, so a bad initialValue is an error even
      when the counter is only iterated. */
  function CounterCommandOf(node: ConfigNode): (r: Result<CounterCommand>)
    requires node.Element?
    ensures "name" !in node.attributes ==> r == Err(MissingAttribute("name"))
    ensures "name" in node.attributes && "initialValue" in node.attributes &&
            ParseInt32(node.attributes["initialValue"]).None? ==>
            r == Err(InvalidValue(node.attributes["initialValue"]))
    ensures r.Ok? ==> "name" in node.attributes && r.value.name == node.attributes["name"]
    ensures r.Ok? ==> (r.value.IterateExisting? <==>
                       "iterate" in node.attributes && ParseBool(node.attributes["iterate"]) == Some(true))
    ensures r.Ok? && r.value.Reset? ==> InInt32(r.value.value) && r.value.direction == DirectionOf(node)
    ensures r.Ok? && r.value.Reset? ==>
      if "initialValue" in node.attributes then ParseInt32(node.attributes["initialValue"]) == Some(r.value.value)
      else r.value.value == 0
  {
    if "name" !in node.attributes then Err(MissingAttribute("name"))
    else
      var name := node.attributes["name"];
      var initial :- if "initialValue" !in node.attributes then Ok(0)
                     else match ParseInt32(node.attributes["initialValue"])
                       case Some(i) => Ok(i)
                       case None => Err(InvalidValue(node.attributes["initialValue"]));
      var iterate :- if "iterate" !in node.attributes then Ok(false)
                     else match ParseBool(node.attributes["iterate"])
                       case Some(b) => Ok(b)
                       case None => Err(InvalidValue(node.attributes["iterate"]));
      if iterate then Ok(IterateExisting(name)) else Ok(Reset(name, initial, DirectionOf(node)))
  }

  /** The fields of one Counter object. */
  datatype CounterState = CounterState(initial: int, value: int, direction: Iteration)

  predicate CountersInRange(table: map<string, CounterState>)
  {
    forall k :: k in table ==> InInt32(table[k].value)
  }

  /** What a command does to the counters: iterating moves an existing
      counter one step in its direction and is a KeyNotFoundException for
      an unknown name; a reset sets the value and the direction of the
      counter, creating it with initial value 0 when it is new and keeping
      its initial value otherwise. */
  function RunCounter(table: map<string, CounterState>, cmd: CounterCommand): (r: Result<map<string, CounterState>>)
    requires CountersInRange(table)
    requires cmd.Reset? ==> InInt32(cmd.value)
    ensures r.Err? <==> cmd.IterateExisting? && cmd.name !in table
    ensures r.Err? ==> r.error == KeyNotFound(cmd.name)
    ensures r.Ok? ==> CountersInRange(r.value) && r.value.Keys == table.Keys + {cmd.name}
    ensures r.Ok? ==> forall k :: k in table && k != cmd.name ==> r.value[k] == table[k]
    ensures r.Ok? && cmd.IterateExisting? ==>
      r.value[cmd.name].value == Step(table[cmd.name].value, table[cmd.name].direction) &&
      r.value[cmd.name].initial == table[cmd.name].initial &&
      r.value[cmd.name].direction == table[cmd.name].direction
    ensures r.Ok? && cmd.Reset? ==>
      r.value[cmd.name].value == cmd.value && r.value[cmd.name].direction == cmd.direction &&
      r.value[cmd.name].initial == if cmd.name in table then table[cmd.name].initial else 0
  {
    match cmd
    case IterateExisting(name) =>
      if name !in table then Err(KeyNotFound(name))
      else Ok(table[name := table[name].(value := Step(table[name].value, table[name].direction))])
    case Reset(name, value, direction) =>
      var initial := if name in table then table[name].initial else 0;
      Ok(table[name := CounterState(initial, value, direction)])
  }

  /** The counter values an internal call sees. */
  function CounterValues(table: map<string, CounterState>): (r: map<string, int>)
    ensures r.Keys == table.Keys
    ensures forall k :: k in r ==> r[k] == table[k].value
  {
    map k | k in table :: table[k].value
  }

  /** After a reset, "counter_" + name reads back the value it was reset to
      in decimal. */
  lemma ResetReadsBack(table: map<string, CounterState>, name: string, value: int, direction: Iteration,
                       ids: map<string, string>)
    requires CountersInRange(table) && InInt32(value)
    ensures RunCounter(table, Reset(name, value, direction)).Ok?
    ensures var after := RunCounter(table, Reset(name, value, direction)).value;
      InternalCall(Env(CounterValues(after), ids), "counter_" + name) == Ok(Some(IntToString(value)))
  {
    var after := RunCounter(table, Reset(name, value, direction)).value;
    CounterCallReadsBack(Env(CounterValues(after), ids), name, "counter_" + name);
  }

  /** Resetting a counter to the value and direction it had before an
      iteration undoes the iteration. */
  lemma IterateThenResetRestores(table: map<string, CounterState>, name: string)
    requires CountersInRange(table) && name in table
    ensures RunCounter(table, IterateExisting(name)).Ok?
    ensures var moved := RunCounter(table, IterateExisting(name)).value;
      var back := RunCounter(moved, Reset(name, table[name].value, table[name].direction));
      back.Ok? && back.value == table
  {
    var moved := RunCounter(table, IterateExisting(name)).value;
    var back := RunCounter(moved, Reset(name, table[name].value, table[name].direction)).value;
    assert back.Keys == table.Keys;
    assert back[name] == table[name];
  }

  /** A reset on a name the table lacks adds a counter that starts from 0
      as its initial value. */
  lemma ResetAddsCounter(table: map<string, CounterState>, name: string, value: int, direction: Iteration)
    requires CountersInRange(table) && InInt32(value) && name !in table
    ensures RunCounter(table, Reset(name, value, direction)) == Ok(table[name := CounterState(0, value, direction)])
  {
  }

  // ---------------------------------------------------------------------
  // <uniqueidentifier name="..." generate="...">

  /** The name of the identifier a <uniqueidentifier> generates, or None
      when generate is false; generate is true unless it says otherwise, and
      a value bool.TryParse refuses is an error. */
  function IdentifierCommandOf(node: ConfigNode): (r: Result<Option<string>>)
    requires node.Element?
    ensures "name" !in node.attributes ==> r == Err(MissingAttribute("name"))
    ensures r.Ok? ==> "name" in node.attributes
    ensures r.Ok? && r.value.Some? ==> r.value.value == node.attributes["name"]
    ensures "name" in node.attributes ==>
      (r == Ok(None) <==> "generate" in node.attributes && ParseBool(node.attributes["generate"]) == Some(false))
    ensures "name" in node.attributes && "generate" !in node.attributes ==> r == Ok(Some(node.attributes["name"]))
    ensures "name" in node.attributes && "generate" in node.attributes &&
              ParseBool(node.attributes["generate"]).None? ==>
            r == Err(InvalidValue(node.attributes["generate"]))
  {
    if "name" !in node.attributes then Err(MissingAttribute("name"))
    else
      var name := node.attributes["name"];
      if "generate" !in node.attributes then Ok(Some(name))
      else match ParseBool(node.attributes["generate"])
        case Some(true) => Ok(Some(name))
        case Some(false) => Ok(None)
        case None => Err(InvalidValue(node.attributes["generate"]))
  }

  // ---------------------------------------------------------------------
  // <triple predicate="ns:name">

  /** pred.Split(':')[0] and [1]: the text before the first ':' and the
      text between it and the next one; without a ':' there is no [1]. */
  function PredicateParts(pred: string): (r: Result<(string, string)>)
    ensures r.Err? <==> ':' !in pred
    ensures r.Err? ==> r.error == IndexOutOfRange
    ensures r.Ok? ==> ':' !in r.value.0 && ':' !in r.value.1 &&
                      StartsWith(pred, r.value.0 + ":" + r.value.1)
  {
    var parts := Split(pred, ':');
    SplitHead(pred, ':');
    if |parts| < 2 then Err(IndexOutOfRange)
    else
      SplitNoSeparator(pred, ':');
      SplitFirstTwo(pred, ':');
      Ok((parts[0], parts[1]))
  }

  /** A prefix and a name without ':' are what "prefix:name" splits into. */
  lemma PredicatePartsOfJoined(prefix: string, name: string)
    requires ':' !in prefix && ':' !in name
    ensures PredicateParts(prefix + ":" + name) == Ok((prefix, name))
  {
    SplitPair(prefix, name, ':');
  }

  // ---------------------------------------------------------------------
  // <if match="{...}">

  /** Whether an <if> runs its body for the result of its condition: a
      node set when it is not empty, a boolean when it is true, a string or
      a rendered number when bool.TryParse reads true in it; a result of no
      known type is an error. */
  function IfRuns(result: XPathResult, path: string): (r: Result<bool>)
    requires !result.Invalid?
    ensures result.Other? <==> r.Err?
    ensures r.Err? ==> r.error == XPathFailure(path)
    ensures result.NodeSet? ==> r == Ok(|result.nodes| > 0)
    ensures result.Bool? ==> r == Ok(result.truth)
    ensures result.Str? ==> r == Ok(ParseBool(result.text) == Some(true))
    ensures result.Num? ==> r == Ok(ParseBool(result.rendered) == Some(true))
  {
    match result
    case NodeSet(nodes) => Ok(|nodes| > 0)
    case Bool(b) => Ok(b)
    case Str(text) =>
      if IsBlank(text) then
        TrueIsNotBlank(text);
        Ok(false)
      else Ok(ParseBool(text) == Some(true))
    case Num(rendered) => Ok(ParseBool(rendered) == Some(true))
    case Other => Err(XPathFailure(path))
  }

  /** Text that bool.TryParse reads as true is not blank, so the emptiness
      tests before it decide nothing. */
  lemma TrueIsNotBlank(text: string)
    requires IsBlank(text)
    ensures ParseBool(text) != Some(true)
  {
    BlankIffAllWhiteSpace(text);
    TrueText(text);
  }

  /** Text that bool.TryParse reads as true holds a 't' or 'T' that is not
      white space, and an 'r' or 'R'. */
  lemma TrueText(text: string)
    ensures ParseBool(text) == Some(true) ==>
      exists i :: 0 <= i < |text| && LowerChar(text[i]) == 't' && !IsWhiteSpace(text[i])
    ensures ParseBool(text) == Some(true) ==> 'r' in text || 'R' in text
  {
    var t := TrimBy(text, IsWhiteOrNul);
    if ToLower(t) == "true" {
      TrimByIsSlice(text, IsWhiteOrNul);
      var a, b :| 0 <= a <= b <= |text| && t == text[a..b];
      assert |t| == 4;
      assert LowerChar(t[0]) == 't' && LowerChar(t[1]) == 'r';
      assert text[a] == t[0] && text[a + 1] == t[1];
    }
  }

  /** A number as double.ToString() renders it (digits, signs, separators,
      an exponent, "NaN", "Infinity" or "∞") never holds an 'r', so an <if>
      on a numeric result never runs its body. */
  lemma NumberNeverRunsIf(rendered: string, path: string)
    requires 'r' !in rendered && 'R' !in rendered
    ensures IfRuns(Num(rendered), path) == Ok(false)
  {
    TrueText(rendered);
  }

  // ---------------------------------------------------------------------
  // <namespaces><namespace prefix="..." uri="..."/>...</namespaces>

  /** The namespaces every run starts with, in this order. */
  const DefaultNamespaces: NamespaceTable := [
    ("owl", "http://www.w3.org/2002/07/owl#"),
    ("rdf", "http://www.w3.org/1999/02/22-rdf-syntax-ns#"),
    ("rdfs", "http://www.w3.org/2000/01/rdf-schema#")]

  lemma DefaultNamespacesUsable()
    ensures DistinctPrefixes(DefaultNamespaces) && HasPrefix(DefaultNamespaces, "rdf")
  {
    assert DefaultNamespaces[1].0 == "rdf";
  }

  /** The entry a <namespace> child adds, or the error it raises: a node
      that is not an element has no attributes (a NullReferenceException),
      and both attributes are required. */
  function NamespaceEntry(node: ConfigNode): (r: Result<(string, string)>)
    ensures r.Ok? <==> node.Element? && "prefix" in node.attributes && "uri" in node.attributes
    ensures r.Ok? ==> r.value == (node.attributes["prefix"], node.attributes["uri"])
    ensures !node.Element? ==> r == Err(NullReference)
  {
    if !node.Element? then Err(NullReference)
    else if "prefix" !in node.attributes then Err(MissingAttribute("prefix"))
    else if "uri" !in node.attributes then Err(MissingAttribute("uri"))
    else Ok((node.attributes["prefix"], node.attributes["uri"]))
  }

  /** The entry appended unless its prefix is taken. */
  function AddAbsent(ns: NamespaceTable, entry: (string, string)): (r: NamespaceTable)
    ensures HasPrefix(ns, entry.0) ==> r == ns
    ensures !HasPrefix(ns, entry.0) ==> r == ns + [entry]
  {
    if HasPrefix(ns, entry.0) then ns else ns + [entry]
  }

  /** GetNamespaces over the children of <namespaces>, in order: the table
      after them, and the error that ended the loop, if any. The entries
      added before an error stay. */
  function NamespacesFrom(ns: NamespaceTable, nodes: seq<ConfigNode>): (r: (NamespaceTable, Option<Exception>))
    decreases |nodes|
  {
    if |nodes| == 0 then (ns, None)
    else match NamespaceEntry(nodes[0])
      case Err(e) => (ns, Some(e))
      case Ok(entry) => NamespacesFrom(AddAbsent(ns, entry), nodes[1..])
  }

  /** GetNamespaces only appends, keeps the prefixes distinct, never
      rebinds a prefix it finds bound, and, when no child fails, binds every
      prefix the children name. */
  lemma {:induction false} NamespacesExtend(ns: NamespaceTable, nodes: seq<ConfigNode>)
    requires DistinctPrefixes(ns)
    ensures ns <= NamespacesFrom(ns, nodes).0
    ensures DistinctPrefixes(NamespacesFrom(ns, nodes).0)
    ensures forall p :: HasPrefix(ns, p) ==> Lookup(NamespacesFrom(ns, nodes).0, p) == Lookup(ns, p)
    ensures NamespacesFrom(ns, nodes).1.None? ==>
      forall k :: 0 <= k < |nodes| ==>
        NamespaceEntry(nodes[k]).Ok? && HasPrefix(NamespacesFrom(ns, nodes).0, NamespaceEntry(nodes[k]).value.0)
    decreases |nodes|
  {
    if |nodes| > 0 {
      match NamespaceEntry(nodes[0])
      case Err(_) =>
      case Ok(entry) =>
        var next := AddAbsent(ns, entry);
        AddAbsentKeeps(ns, entry);
        NamespacesExtend(next, nodes[1..]);
        var r := NamespacesFrom(next, nodes[1..]).0;
        assert HasPrefix(next, entry.0);
        LookupInPrefix(next, r, entry.0);
        forall p | HasPrefix(ns, p) ensures Lookup(r, p) == Lookup(ns, p) {
          assert Lookup(next, p) == Lookup(ns, p);
        }
        if NamespacesFrom(ns, nodes).1.None? {
          forall k | 0 <= k < |nodes| ensures NamespaceEntry(nodes[k]).Ok? && HasPrefix(r, NamespaceEntry(nodes[k]).value.0) {
            if k > 0 {
              assert nodes[k] == nodes[1..][k - 1];
            }
          }
        }
    }
  }

  /** Appending an absent prefix keeps the table distinct and the old
      lookups unchanged. */
  lemma AddAbsentKeeps(ns: NamespaceTable, entry: (string, string))
    requires DistinctPrefixes(ns)
    ensures DistinctPrefixes(AddAbsent(ns, entry)) && HasPrefix(AddAbsent(ns, entry), entry.0)
    ensures ns <= AddAbsent(ns, entry)
    ensures forall p :: HasPrefix(ns, p) ==> Lookup(AddAbsent(ns, entry), p) == Lookup(ns, p)
  {
    var r := AddAbsent(ns, entry);
    forall p | HasPrefix(ns, p) ensures Lookup(r, p) == Lookup(ns, p) {
      LookupInPrefix(ns, r, p);
    }
    if !HasPrefix(ns, entry.0) {
      assert r[|ns|] == entry;
    }
  }

  /** A bound prefix looks up the same in any extension of a distinct
      table. */
  lemma LookupInPrefix(ns: NamespaceTable, r: NamespaceTable, p: string)
    requires ns <= r && DistinctPrefixes(r) && HasPrefix(ns, p)
    ensures Lookup(r, p) == Lookup(ns, p)
  {
    var i :| 0 <= i < |ns| && ns[i].0 == p;
    LookupFindsEntry(ns, i);
    LookupFindsEntry(r, i);
  }

  /** GetNamespaces(config/namespaces): without that element the table is
      left alone and the error is logged. */
  function GetNamespacesOf(ns: NamespaceTable, namespacesNode: Option<ConfigNode>): (r: (NamespaceTable, Option<Exception>))
    ensures namespacesNode.None? ==> r == (ns, Some(MissingElement("namespaces")))
    ensures namespacesNode.Some? ==> r == NamespacesFrom(ns, Children(namespacesNode.value))
  {
    match namespacesNode
    case None => (ns, Some(MissingElement("namespaces")))
    case Some(n) => NamespacesFrom(ns, Children(n))
  }

  // ---------------------------------------------------------------------
  // The output file

  /** The file name of a path, standing in for FileInfo(dataPath).Name: the
      text after the last '/'. Only '/' separates directories here. */
  function FileName(path: string): (r: string)
    ensures '/' !in r && EndsWith(path, r)
  {
    match LastIndexOf(path, '/')
    case Some(i) => path[i + 1..]
    case None => path
  }

  /** The data file's name up to its last '.', the name of the output file
      before ".rdf"; a name without a '.' makes Substring throw. */
  function OutputFileStem(dataPath: string): (r: Result<string>)
    ensures r.Err? <==> '.' !in FileName(dataPath)
    ensures r.Err? ==> r.error == ArgumentOutOfRange
    ensures r.Ok? ==> '/' !in r.value && exists ext :: '.' !in ext && FileName(dataPath) == r.value + "." + ext
  {
    var name := FileName(dataPath);
    match LastIndexOf(name, '.')
    case None => Err(ArgumentOutOfRange)
    case Some(j) =>
      var stem, ext := name[..j], name[j + 1..];
      assert name == stem + "." + ext;
      assert '/' !in stem by {
        assert forall i :: 0 <= i < |stem| ==> stem[i] == name[i];
      }
      Ok(stem)
  }

  /** The output file of a run: the stem with ".rdf" under the output
      directory. */
  function OutputFile(outputPath: string, dataPath: string): (r: Result<string>)
    ensures r.Err? <==> OutputFileStem(dataPath).Err?
    ensures r.Ok? ==> EndsWith(r.value, OutputFileStem(dataPath).value + ".rdf")
  {
    var stem :- OutputFileStem(dataPath);
    Ok(Combine(outputPath, stem + ".rdf"))
  }
}
