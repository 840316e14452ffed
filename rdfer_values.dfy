// The value resolver of the mapping interpreter (RDFer/RDFer.cs): the
// internal calls ^counter_NAME~ and ^uniqueidentifier_NAME~, the
// substitution of calls nested in a path, and GetValues, which turns an
// attribute of a configuration element into the list of values it stands
// for in the current data node.

module RdferValues {
  import opened Wrappers
  import opened DotNet
  import opened RdferText
  import opened RdferConfig
  import opened Modifiers

  /** What the internal calls read from the interpreter: the value of each
      counter and the stored identifier of each unique identifier. */
  datatype Env = Env(counters: map<string, int>, ids: map<string, string>)

  // ---------------------------------------------------------------------
  // TryInternalFunction

  /** The result of an internal call, None when the text calls nothing; a
      call naming a variable that does not exist throws. */
  function InternalCall(env: Env, funcCall: string): (r: Result<Option<string>>)
    ensures r.Ok? && r.value.Some? ==> StartsWith(funcCall, "counter_") || StartsWith(funcCall, "uniqueidentifier_")
    ensures !StartsWith(funcCall, "counter_") && !StartsWith(funcCall, "uniqueidentifier_") ==> r == Ok(None)
  {
    if StartsWith(funcCall, "counter_") then
      var name := funcCall[8..];
      if name in env.counters then Ok(Some(IntToString(env.counters[name]))) else Err(KeyNotFound(name))
    else if StartsWith(funcCall, "uniqueidentifier_") then
      var name := funcCall[17..];
      if name in env.ids then Ok(Some(env.ids[name])) else Err(KeyNotFound(name))
    else Ok(None)
  }

  /** counter_NAME reads back the counter's value in decimal, and a missing
      counter is an error. */
  lemma CounterCallReadsBack(env: Env, name: string, call: string)
    requires call == "counter_" + name
    ensures name !in env.counters ==> InternalCall(env, call) == Err(KeyNotFound(name))
    ensures name in env.counters ==> InternalCall(env, call) == Ok(Some(IntToString(env.counters[name])))
    ensures name in env.counters && InInt32(env.counters[name]) ==>
      ParseInt32(InternalCall(env, call).value.value) == Some(env.counters[name])
  {
    assert call[..8] == "counter_";
    assert call[8..] == name;
    if name in env.counters && InInt32(env.counters[name]) {
      ParseRendered(env.counters[name]);
    }
  }

  /** uniqueidentifier_NAME reads the stored identifier. */
  lemma IdentifierCallReads(env: Env, name: string, call: string)
    requires call == "uniqueidentifier_" + name
    ensures name !in env.ids ==> InternalCall(env, call) == Err(KeyNotFound(name))
    ensures name in env.ids ==> InternalCall(env, call) == Ok(Some(env.ids[name]))
  {
    assert call[..8] == "uniqueid";
    assert call[..17] == "uniqueidentifier_";
    assert call[17..] == name;
  }

  // ---------------------------------------------------------------------
  // MatchNestedInternalFunctionCalls

  /** The internal calls found in the unbracketed text are substituted, in
      order, each by its result; texts that call nothing stay. */
  function MatchNestedOf(env: Env, xPathValue: string): Result<string>
  {
    MatchNestedFrom(env, Placeholders(RemoveClosingBrackets(xPathValue), '^', '~', 0), xPathValue)
  }

  function MatchNestedFrom(env: Env, calls: seq<string>, x: string): Result<string>
    requires forall k :: 0 <= k < |calls| ==> |calls[k]| >= 2
    decreases |calls|
  {
    if |calls| == 0 then Ok(x)
    else
      var result :- InternalCall(env, RemoveClosingBrackets(calls[0]));
      var next := if result.Some? then Replace(x, calls[0], result.value) else x;
      MatchNestedFrom(env, calls[1..], next)
  }

  method MatchNestedInternalFunctionCalls(env: Env, xPathValue: string) returns (r: Result<string>)
    ensures r == MatchNestedOf(env, xPathValue)
  {
    var calls := Placeholders(RemoveClosingBrackets(xPathValue), '^', '~', 0);
    var x := xPathValue;
    var i := 0;
    while i < |calls|
      invariant 0 <= i <= |calls|
      invariant MatchNestedFrom(env, calls[i..], x) == MatchNestedOf(env, xPathValue)
    {
      assert calls[i..][1..] == calls[i + 1..];
      var result := InternalCall(env, RemoveClosingBrackets(calls[i]));
      if result.Err? {
        return Err(result.error);
      }
      if result.value.Some? {
        x := Replace(x, calls[i], result.value.value);
      }
      i := i + 1;
    }
    r := Ok(x);
  }

  /** The unbracketed text is a slice of the text. */
  lemma UnbracketedIsSlice(m: string)
    ensures exists a, b :: 0 <= a <= b <= |m| && RemoveClosingBrackets(m) == m[a..b]
  {
    var a := if StartsWith(m, "{") || StartsWith(m, "^") then 1 else 0;
    var u := m[a..];
    if EndsWith(u, "}") || EndsWith(u, "~") {
      assert RemoveClosingBrackets(m) == m[a..|m| - 1];
    } else {
      assert RemoveClosingBrackets(m) == m[a..|m|];
    }
  }

  /** A text without '^' calls nothing, and is kept as it is. */
  lemma NoCaretUnchanged(env: Env, x: string)
    requires '^' !in x
    ensures MatchNestedOf(env, x) == Ok(x)
  {
    UnbracketedIsSlice(x);
    var a, b :| 0 <= a <= b <= |x| && RemoveClosingBrackets(x) == x[a..b];
    assert forall c :: c in x[a..b] ==> c in x;
    NoOpenNoPlaceholder(RemoveClosingBrackets(x), '^', '~', 0);
  }

  // ---------------------------------------------------------------------
  // GetValues

  /** A result value is kept only when it is not blank, and is then
      prefixed. */
  function Kept(prefix: string, v: string): (r: seq<string>)
    ensures |r| <= 1 && (|r| == 1 <==> !IsBlank(v))
    ensures forall k :: 0 <= k < |r| ==> StartsWith(r[k], prefix)
  {
    if IsBlank(v) then [] else [prefix + v]
  }

  /** A placeholder after MatchNested, and the internal call it makes. */
  function Resolve(env: Env, m: string): Result<(string, Option<string>)>
  {
    var x :- MatchNestedOf(env, m);
    var call :- InternalCall(env, RemoveClosingBrackets(x));
    Ok((x, call))
  }

  /** One placeholder of a value with several of them, or of a value that
      is not a whole "{path}": its text is replaced in the value by the
      internal call's result or by what its path selects, and the value
      counts as matched once a path gave non-blank text. total is the
      number of placeholders in the value. */
  function EmbeddedStep(env: Env, d: DataDocument, context: DataNode, m: string, total: nat,
                        value: string, matched: bool): (r: Result<(string, bool)>)
    ensures Resolve(env, m).Err? ==> r == Err(Resolve(env, m).error)
    ensures Resolve(env, m).Ok? && Resolve(env, m).value.1.Some? && r.Ok? ==> r.value.1 == matched
    ensures Resolve(env, m).Ok? && Resolve(env, m).value.1.None? ==>
      var x := Resolve(env, m).value.0;
      var result := d.evaluate(context, RemoveClosingBrackets(x));
      (result.NodeSet? && |result.nodes| == 0 ==>
        r == if total == 1 then Ok((value, matched)) else Err(NoMatch(x))) &&
      (result.NodeSet? && |result.nodes| > 1 && total > 1 ==> r == Err(MultipleMatches(x))) &&
      (result.NodeSet? && |result.nodes| > 0 && (total == 1 || |result.nodes| == 1) && |x| > 0 ==>
        r == Ok((Replace(value, x, d.innerText(result.nodes[0])), matched || !IsBlank(d.innerText(result.nodes[0]))))) &&
      (result.Str? && IsBlank(result.text) ==> r == Ok((value, matched))) &&
      (result.Str? && !IsBlank(result.text) && |x| > 0 ==> r == Ok((Replace(value, x, result.text), true))) &&
      (result.Num? && r.Ok? ==> r.value.1) &&
      ((result.Bool? || result.Other?) ==> r == Err(NoMatch(x))) &&
      (result.Invalid? ==> r == Err(XPathFailure(RemoveClosingBrackets(x))))
  {
    var resolved :- Resolve(env, m);
    var x := resolved.0;
    if resolved.1.Some? then
      var v :- ReplaceChecked(value, x, resolved.1.value);
      Ok((v, matched))
    else
      var path := RemoveClosingBrackets(x);
      match d.evaluate(context, path)
      case NodeSet(nodes) =>
        if |nodes| == 1 || (total == 1 && |nodes| > 0) then
          var text := d.innerText(nodes[0]);
          var v :- ReplaceChecked(value, x, text);
          Ok((v, matched || !IsBlank(text)))
        else if total != 1 && |nodes| == 0 then Err(NoMatch(x))
        else if total > 1 then Err(MultipleMatches(x))
        else Ok((value, matched))
      case Str(text) =>
        if IsBlank(text) then Ok((value, matched))
        else
          var v :- ReplaceChecked(value, x, text);
          Ok((v, true))
      case Num(rendered) =>
        var shown := match ParseInt32(rendered) case Some(i) => IntToString(i) case None => rendered;
        var v :- ReplaceChecked(value, x, shown);
        Ok((v, true))
      case Bool(_) => Err(NoMatch(x))
      case Other => Err(NoMatch(x))
      case Invalid => Err(XPathFailure(path))
  }

  /** The placeholders processed in order, the first failure ending it. */
  function EmbeddedFrom(env: Env, d: DataDocument, context: DataNode, ms: seq<string>, total: nat,
                        value: string, matched: bool): Result<(string, bool)>
    decreases |ms|
  {
    if |ms| == 0 then Ok((value, matched))
    else
      var step :- EmbeddedStep(env, d, context, ms[0], total, value, matched);
      EmbeddedFrom(env, d, context, ms[1..], total, step.0, step.1)
  }

  /** Internal calls alone never make a value matched: when every
      placeholder is a call, the value is not matched in the end. */
  lemma {:induction false} CallsNeverMatch(env: Env, d: DataDocument, context: DataNode, ms: seq<string>,
                                           total: nat, value: string)
    requires forall k :: 0 <= k < |ms| ==> Resolve(env, ms[k]).Ok? && Resolve(env, ms[k]).value.1.Some?
    ensures EmbeddedFrom(env, d, context, ms, total, value, false).Ok? ==>
      !EmbeddedFrom(env, d, context, ms, total, value, false).value.1
    decreases |ms|
  {
    if |ms| > 0 {
      var step := EmbeddedStep(env, d, context, ms[0], total, value, false);
      if step.Ok? {
        assert !step.value.1;
        assert forall k :: 0 <= k < |ms[1..]| ==> ms[1..][k] == ms[k + 1];
        CallsNeverMatch(env, d, context, ms[1..], total, step.value.0);
      }
    }
  }

  /** The values of a whole "{path}": one per selected node with non-empty
      text, the placeholder replaced by the text, after the modifier; blank
      results are dropped. Collected after acc. */
  function WholeFrom(d: DataDocument, nodes: seq<DataNode>, v0: string, xpath: string, prefix: string,
                     mod: Option<Modifier>, rt: Runtime, acc: seq<string>): (r: Result<seq<string>>)
    ensures r.Ok? ==> acc <= r.value && |r.value| <= |acc| + |nodes|
    ensures r.Ok? && (forall k :: 0 <= k < |acc| ==> StartsWith(acc[k], prefix)) ==>
      forall k :: 0 <= k < |r.value| ==> StartsWith(r.value[k], prefix)
    decreases |nodes|
  {
    if |nodes| == 0 then Ok(acc)
    else
      var text := d.innerText(nodes[0]);
      if text == "" then WholeFrom(d, nodes[1..], v0, xpath, prefix, mod, rt, acc)
      else
        var v :- ApplyOptional(mod, Replace(v0, "{" + xpath + "}", text), rt);
        WholeFrom(d, nodes[1..], v0, xpath, prefix, mod, rt, acc + Kept(prefix, v))
  }

  /** The values an attribute stands for before the count checks: plain
      text, a text with embedded placeholders, or a whole "{path}". */
  function Candidates(env: Env, d: DataDocument, context: DataNode, value: string, prefix: string,
                      mod: Option<Modifier>, rt: Runtime): (r: Result<seq<string>>)
    ensures r.Ok? ==> forall k :: 0 <= k < |r.value| ==> StartsWith(r.value[k], prefix)
  {
    if |FieldPlaceholders(value)| == 0 then PlainCandidates(value, prefix, mod, rt)
    else if IsEmbedded(value) then EmbeddedCandidates(env, d, context, value, prefix, mod, rt)
    else WholeCandidates(env, d, context, value, prefix, mod, rt)
  }

  /** Whether a value with placeholders is read placeholder by placeholder:
      it has several, or it is not "{" ... "}". */
  predicate IsEmbedded(value: string)
  {
    |value| == 0 || |FieldPlaceholders(value)| > 1 || value[0] != '{' || value[|value| - 1] != '}'
  }

  /** No placeholder: the text itself, after the modifier. */
  function PlainCandidates(value: string, prefix: string, mod: Option<Modifier>, rt: Runtime): (r: Result<seq<string>>)
    ensures r.Ok? ==> |r.value| <= 1 && forall k :: 0 <= k < |r.value| ==> StartsWith(r.value[k], prefix)
    ensures mod.None? ==> r == Ok(Kept(prefix, value))
  {
    var v :- ApplyOptional(mod, value, rt);
    Ok(Kept(prefix, v))
  }

  /** Embedded placeholders: at most one value, and none unless a path
      matched. */
  function EmbeddedCandidates(env: Env, d: DataDocument, context: DataNode, value: string, prefix: string,
                              mod: Option<Modifier>, rt: Runtime): (r: Result<seq<string>>)
    ensures r.Ok? ==> |r.value| <= 1 && forall k :: 0 <= k < |r.value| ==> StartsWith(r.value[k], prefix)
    ensures r.Ok? && |r.value| == 1 ==>
      var res := EmbeddedFrom(env, d, context, FieldPlaceholders(value), |FieldPlaceholders(value)|, value, false);
      res.Ok? && res.value.1
  {
    var xpaths := FieldPlaceholders(value);
    var res :- EmbeddedFrom(env, d, context, xpaths, |xpaths|, value, false);
    var v :- ApplyOptional(mod, res.0, rt);
    Ok(if res.1 then Kept(prefix, v) else [])
  }

  /** A whole "{path}": an internal call gives one value, a path one value
      per selected node. */
  function WholeCandidates(env: Env, d: DataDocument, context: DataNode, value: string, prefix: string,
                           mod: Option<Modifier>, rt: Runtime): (r: Result<seq<string>>)
    ensures r.Ok? ==> forall k :: 0 <= k < |r.value| ==> StartsWith(r.value[k], prefix)
  {
    var v0 :- MatchNestedOf(env, value);
    var xpath := RemoveClosingBrackets(v0);
    var call :- InternalCall(env, xpath);
    if call.Some? then
      var w :- ApplyOptional(mod, Replace(v0, v0, call.value), rt);
      Ok(Kept(prefix, w))
    else
      var nodes :- SelectNodes(d, context, xpath);
      WholeFrom(d, nodes, v0, xpath, prefix, mod, rt, [])
  }

  /** GetValues(attr, node, data, mod, min, max). A missing attribute is an
      error (a NullReferenceException when no minimum is asked for); the
      values all carry the node's prefix attribute, and their number is
      checked against min and, when max is positive, against max. */
  function GetValuesOf(env: Env, d: DataDocument, context: DataNode, node: ConfigNode, attr: string,
                       mod: Option<Modifier>, min: int, max: int, rt: Runtime): (r: Result<seq<string>>)
    requires node.Element?
    ensures attr !in node.attributes ==> r == Err(if min > 0 then MissingAttribute(attr) else NullReference)
    ensures r.Ok? ==> min <= |r.value| && (max > 0 ==> |r.value| <= max)
    ensures r.Ok? ==> forall k :: 0 <= k < |r.value| ==> StartsWith(r.value[k], Attr(node, "prefix").GetOr(""))
    ensures attr in node.attributes ==>
      var c := Candidates(env, d, context, node.attributes[attr], Attr(node, "prefix").GetOr(""), mod, rt);
      (c.Err? ==> r == Err(c.error)) &&
      (c.Ok? ==> (r.Ok? <==> min <= |c.value| && (max <= 0 || |c.value| <= max)) && (r.Ok? ==> r.value == c.value)) &&
      (c.Ok? && |c.value| < min ==> r == Err(TooFewValues(attr))) &&
      (c.Ok? && min <= |c.value| && max > 0 && |c.value| > max ==> r == Err(TooManyValues(attr)))
  {
    if attr !in node.attributes then Err(if min > 0 then MissingAttribute(attr) else NullReference)
    else
      var found :- Candidates(env, d, context, node.attributes[attr], Attr(node, "prefix").GetOr(""), mod, rt);
      if |found| < min then Err(TooFewValues(attr))
      else if max > 0 && |found| > max then Err(TooManyValues(attr))
      else Ok(found)
  }

  /** The reference meaning of a whole "{path}" without a modifier: the
      prefixed texts of the selected nodes, in order, the blank ones left
      out. */
  function NodeTexts(d: DataDocument, nodes: seq<DataNode>, prefix: string): (r: seq<string>)
    ensures |r| <= |nodes|
  {
    if |nodes| == 0 then []
    else Kept(prefix, d.innerText(nodes[0])) + NodeTexts(d, nodes[1..], prefix)
  }

  lemma {:induction false} WholeIsNodeTexts(d: DataDocument, nodes: seq<DataNode>, p: string, prefix: string,
                                            rt: Runtime, acc: seq<string>)
    ensures WholeFrom(d, nodes, "{" + p + "}", p, prefix, None, rt, acc) == Ok(acc + NodeTexts(d, nodes, prefix))
    decreases |nodes|
  {
    if |nodes| > 0 {
      var kept := Kept(prefix, d.innerText(nodes[0]));
      var rest := NodeTexts(d, nodes[1..], prefix);
      WholeStep(d, nodes, p, prefix, rt, acc);
      WholeIsNodeTexts(d, nodes[1..], p, prefix, rt, acc + kept);
      ConcatAssociates(acc, kept, rest);
    } else {
      assert NodeTexts(d, nodes, prefix) == [];
      assert acc + [] == acc;
    }
  }

  lemma EmptyConcat<T>(a: seq<T>)
    ensures [] + a == a
  {
  }

  lemma ConcatAssociates<T>(a: seq<T>, b: seq<T>, c: seq<T>)
    ensures a + b + c == a + (b + c)
  {
  }

  /** One node of a whole "{path}" without a modifier adds its kept text. */
  lemma WholeStep(d: DataDocument, nodes: seq<DataNode>, p: string, prefix: string, rt: Runtime, acc: seq<string>)
    requires |nodes| > 0
    ensures WholeFrom(d, nodes, "{" + p + "}", p, prefix, None, rt, acc) ==
      WholeFrom(d, nodes[1..], "{" + p + "}", p, prefix, None, rt, acc + Kept(prefix, d.innerText(nodes[0])))
  {
    var text := d.innerText(nodes[0]);
    if text == "" {
      assert Kept(prefix, text) == [] by { BlankIffAllWhiteSpace(text); }
      assert acc + [] == acc;
    } else {
      ReplaceWhole("{" + p + "}", text);
    }
  }

  /** A value that is one "{path}" and nothing else, with no internal call
      in it, gives, without a modifier, one value per selected node whose
      text is not blank, in document order; a path that selects no node
      set is an error. */
  lemma WholePathValues(env: Env, d: DataDocument, context: DataNode, p: string, prefix: string, rt: Runtime)
    requires '^' !in p && '{' !in p && '}' !in p && '\n' !in p
    requires InternalCall(env, p) == Ok(None)
    ensures d.evaluate(context, p).NodeSet? ==>
      Candidates(env, d, context, "{" + p + "}", prefix, None, rt) == Ok(NodeTexts(d, d.evaluate(context, p).nodes, prefix))
    ensures !d.evaluate(context, p).NodeSet? ==>
      Candidates(env, d, context, "{" + p + "}", prefix, None, rt) == Err(XPathFailure(p))
  {
    var value := "{" + p + "}";
    WholePlaceholders(p);
    assert !IsEmbedded(value);
    WholeOfBracketed(env, d, context, p, prefix, rt);
  }

  lemma WholeOfBracketed(env: Env, d: DataDocument, context: DataNode, p: string, prefix: string, rt: Runtime)
    requires '^' !in p
    requires InternalCall(env, p) == Ok(None)
    ensures d.evaluate(context, p).NodeSet? ==>
      WholeCandidates(env, d, context, "{" + p + "}", prefix, None, rt) == Ok(NodeTexts(d, d.evaluate(context, p).nodes, prefix))
    ensures !d.evaluate(context, p).NodeSet? ==>
      WholeCandidates(env, d, context, "{" + p + "}", prefix, None, rt) == Err(XPathFailure(p))
  {
    var value := "{" + p + "}";
    assert '^' !in value;
    NoCaretUnchanged(env, value);
    UnwrapWrapped(p);
    WholeOfPath(env, d, context, value, p, prefix, rt);
    if d.evaluate(context, p).NodeSet? {
      var nodes := d.evaluate(context, p).nodes;
      WholeIsNodeTexts(d, nodes, p, prefix, rt, []);
      EmptyConcat(NodeTexts(d, nodes, prefix));
    }
  }

  /** A whole value that MatchNested leaves alone and that names a path. */
  lemma WholeOfPath(env: Env, d: DataDocument, context: DataNode, value: string, p: string, prefix: string, rt: Runtime)
    requires MatchNestedOf(env, value) == Ok(value) && RemoveClosingBrackets(value) == p
    requires InternalCall(env, p) == Ok(None)
    ensures d.evaluate(context, p).NodeSet? ==>
      WholeCandidates(env, d, context, value, prefix, None, rt) == WholeFrom(d, d.evaluate(context, p).nodes, value, p, prefix, None, rt, [])
    ensures !d.evaluate(context, p).NodeSet? ==>
      WholeCandidates(env, d, context, value, prefix, None, rt) == Err(XPathFailure(p))
  {
  }

  /** "{path}" holds exactly the one placeholder. */
  lemma WholePlaceholders(p: string)
    requires '^' !in p && '{' !in p && '}' !in p && '\n' !in p
    ensures FieldPlaceholders("{" + p + "}") == ["{" + p + "}"]
  {
    var value := "{" + p + "}";
    assert '^' !in value;
    NoOpenNoPlaceholder(value, '^', '~', 0);
    assert CloseAt(value, '}', 1) == Some(|p| + 1) by {
      CloseAtFirst(value, '}', 1, |p| + 1);
    }
    assert value[0..|p| + 2] == value;
    assert Placeholders(value, '{', '}', |p| + 2) == [];
  }

  lemma {:induction false} CloseAtFirst(s: string, close: char, from: nat, j: nat)
    requires from <= j < |s| && s[j] == close
    requires forall k :: from <= k < j ==> s[k] != close && s[k] != '\n'
    ensures CloseAt(s, close, from) == Some(j)
    decreases j - from
  {
    if from < j {
      CloseAtFirst(s, close, from + 1, j);
    }
  }

  /** GetValues as the interpreter runs it: a loop over the placeholders
      updating the value, or a loop over the selected nodes collecting
      values. */
  method GetValues(env: Env, d: DataDocument, context: DataNode, node: ConfigNode, attr: string,
                   mod: Option<Modifier>, min: int, max: int, rt: Runtime) returns (r: Result<seq<string>>)
    requires node.Element?
    ensures r == GetValuesOf(env, d, context, node, attr, mod, min, max, rt)
  {
    if attr !in node.attributes {
      return Err(if min > 0 then MissingAttribute(attr) else NullReference);
    }
    var value := node.attributes[attr];
    var prefix := if "prefix" in node.attributes then node.attributes["prefix"] else "";
    var found: seq<string>;
    if |FieldPlaceholders(value)| == 0 {
      var v := ApplyOptional(mod, value, rt);
      if v.Err? {
        return Err(v.error);
      }
      found := Kept(prefix, v.value);
    } else if IsEmbedded(value) {
      var e := EmbeddedValues(env, d, context, value, prefix, mod, rt);
      if e.Err? {
        return Err(e.error);
      }
      found := e.value;
    } else {
      var w := WholeValues(env, d, context, value, prefix, mod, rt);
      if w.Err? {
        return Err(w.error);
      }
      found := w.value;
    }
    assert Ok(found) == Candidates(env, d, context, value, prefix, mod, rt);
    if |found| < min {
      return Err(TooFewValues(attr));
    }
    if max > 0 && |found| > max {
      return Err(TooManyValues(attr));
    }
    r := Ok(found);
  }

  /** The embedded-placeholder branch: the value counts only when a path
      matched. */
  method EmbeddedValues(env: Env, d: DataDocument, context: DataNode, value0: string,
                        prefix: string, mod: Option<Modifier>, rt: Runtime) returns (r: Result<seq<string>>)
    ensures r == EmbeddedCandidates(env, d, context, value0, prefix, mod, rt)
  {
    var xpaths := FieldPlaceholders(value0);
    var res := EmbeddedLoop(env, d, context, xpaths, value0);
    if res.Err? {
      return Err(res.error);
    }
    var v := ApplyOptional(mod, res.value.0, rt);
    if v.Err? {
      return Err(v.error);
    }
    r := Ok(if res.value.1 then Kept(prefix, v.value) else []);
  }

  /** The loop over the placeholders of a value, in order. */
  method EmbeddedLoop(env: Env, d: DataDocument, context: DataNode, xpaths: seq<string>, value0: string)
    returns (r: Result<(string, bool)>)
    ensures r == EmbeddedFrom(env, d, context, xpaths, |xpaths|, value0, false)
  {
    var value := value0;
    var matched := false;
    var i := 0;
    while i < |xpaths|
      invariant 0 <= i <= |xpaths|
      invariant EmbeddedFrom(env, d, context, xpaths[i..], |xpaths|, value, matched)
             == EmbeddedFrom(env, d, context, xpaths, |xpaths|, value0, false)
    {
      assert xpaths[i..][1..] == xpaths[i + 1..];
      var step := ResolvePlaceholder(env, d, context, xpaths[i], |xpaths|, value, matched);
      if step.Err? {
        return Err(step.error);
      }
      value, matched := step.value.0, step.value.1;
      i := i + 1;
    }
    assert xpaths[i..] == [];
    r := Ok((value, matched));
  }

  /** One pass of the placeholder loop. */
  method ResolvePlaceholder(env: Env, d: DataDocument, context: DataNode, m: string, total: nat, value: string, matched: bool)
    returns (r: Result<(string, bool)>)
    ensures r == EmbeddedStep(env, d, context, m, total, value, matched)
  {
    var nested := MatchNestedInternalFunctionCalls(env, m);
    if nested.Err? {
      return Err(nested.error);
    }
    var x := nested.value;
    var call := InternalCall(env, RemoveClosingBrackets(x));
    if call.Err? {
      return Err(call.error);
    }
    if call.value.Some? {
      var v := ReplaceChecked(value, x, call.value.value);
      if v.Err? {
        return Err(v.error);
      }
      return Ok((v.value, matched));
    }
    var path := RemoveClosingBrackets(x);
    var result := d.evaluate(context, path);
    match result {
      case NodeSet(nodes) =>
        if |nodes| == 1 || (total == 1 && |nodes| > 0) {
          var text := d.innerText(nodes[0]);
          var v := ReplaceChecked(value, x, text);
          if v.Err? {
            return Err(v.error);
          }
          r := Ok((v.value, matched || !IsBlank(text)));
        } else if total != 1 && |nodes| == 0 {
          r := Err(NoMatch(x));
        } else if total > 1 {
          r := Err(MultipleMatches(x));
        } else {
          r := Ok((value, matched));
        }
      case Str(text) =>
        if IsBlank(text) {
          r := Ok((value, matched));
        } else {
          var v := ReplaceChecked(value, x, text);
          if v.Err? {
            return Err(v.error);
          }
          r := Ok((v.value, true));
        }
      case Num(rendered) =>
        var parsed := ParseInt32(rendered);
        var shown := if parsed.Some? then IntToString(parsed.value) else rendered;
        var v := ReplaceChecked(value, x, shown);
        if v.Err? {
          return Err(v.error);
        }
        r := Ok((v.value, true));
      case Bool(_) =>
        r := Err(NoMatch(x));
      case Other =>
        r := Err(NoMatch(x));
      case Invalid =>
        r := Err(XPathFailure(path));
    }
  }

  /** The whole "{path}" branch: an internal call gives one value, a path
      one value per selected node. */
  method WholeValues(env: Env, d: DataDocument, context: DataNode, value: string,
                     prefix: string, mod: Option<Modifier>, rt: Runtime) returns (r: Result<seq<string>>)
    ensures r == WholeCandidates(env, d, context, value, prefix, mod, rt)
  {
    var nested := MatchNestedInternalFunctionCalls(env, value);
    if nested.Err? {
      return Err(nested.error);
    }
    var v0 := nested.value;
    var xpath := RemoveClosingBrackets(v0);
    var call := InternalCall(env, xpath);
    if call.Err? {
      return Err(call.error);
    }
    if call.value.Some? {
      var w := ApplyOptional(mod, Replace(v0, v0, call.value.value), rt);
      if w.Err? {
        return Err(w.error);
      }
      return Ok(Kept(prefix, w.value));
    }
    var selected := SelectNodes(d, context, xpath);
    if selected.Err? {
      return Err(selected.error);
    }
    var nodes := selected.value;
    var found: seq<string> := [];
    var i := 0;
    while i < |nodes|
      invariant 0 <= i <= |nodes|
      invariant WholeFrom(d, nodes[i..], v0, xpath, prefix, mod, rt, found)
             == WholeFrom(d, nodes, v0, xpath, prefix, mod, rt, [])
    {
      assert nodes[i..][1..] == nodes[i + 1..];
      var text := d.innerText(nodes[i]);
      if text != "" {
        var v := ApplyOptional(mod, Replace(v0, "{" + xpath + "}", text), rt);
        if v.Err? {
          return Err(v.error);
        }
        found := found + Kept(prefix, v.value);
      }
      i := i + 1;
    }
    assert nodes[i..] == [];
    r := Ok(found);
  }
}
