// Four SPARQL expression classes of the vendored dotNetRDF query engine:
// the conditional AND (Query/Expressions/Conditional/AndExpression.cs),
// isBLANK (Functions/Sparql/Boolean/IsBlankFunction.cs), and STRSTARTS and
// STRENDS (Functions/Sparql/String/StrStartsFunction.cs and
// StrEndsFunction.cs). Any other expression is a leaf whose evaluation,
// text, type and functor come from the context.
//
// Evaluation is deterministic here, so the AND's second evaluation of its
// right operand (in its catch block) yields the outcome of the first.

module SparqlExpressions {
  import opened Wrappers
  import opened DotNet

  datatype NodeType = Blank | Uri | Literal | GraphLiteral | Variable

  /** An IValuedNode: its kind, its lexical value, and its effective
      boolean value when it has one. */
  datatype ValuedNode = ValuedNode(nodeType: NodeType, value: string, ebv: Option<bool>)

  /** The exceptions of evaluation: an RdfQueryException (possibly wrapping
      another exception) or any other exception. */
  datatype Fault =
    | QueryFault(message: string)
    | WrappedFault(message: string, inner: Fault)
    | SystemFault(message: string)

  predicate IsRdfQueryException(f: Fault)
  {
    f.QueryFault? || f.WrappedFault?
  }

  datatype Outcome<T> = Value(value: T) | Thrown(fault: Fault)

  /** What evaluating an expression yields: a node, null, or an exception. */
  type Evaluation = Outcome<Option<ValuedNode>>

  datatype ExpressionType = BinaryOperator | Function | Primary | Aggregate | UnaryOperator

  /** What the context knows of the expressions outside the model. */
  datatype Leaves = Leaves(
    eval: nat -> Evaluation,
    text: nat -> string,
    kind: nat -> ExpressionType,
    functor: nat -> string)

  datatype Expr =
    | And(left: Expr, right: Expr)
    | IsBlank(operand: Expr)
    | StrStarts(str: Expr, arg: Expr)
    | StrEnds(str: Expr, arg: Expr)
    | Leaf(id: nat)

  const AND_FUNCTOR := "&&"
  const KEYWORD_ISBLANK := "ISBLANK"
  const KEYWORD_STRSTARTS := "STRSTARTS"
  const KEYWORD_STRENDS := "STRENDS"

  function BooleanNode(b: bool): ValuedNode
  {
    ValuedNode(Literal, if b then "true" else "false", Some(b))
  }

  /** An evaluation that, when it has a value, is a boolean literal node
      for its own effective boolean value. */
  predicate BooleanResult(o: Evaluation)
  {
    o.Value? ==> o.value.Some? && o.value.value.ebv.Some? && o.value.value == BooleanNode(o.value.value.ebv.value)
  }

  /** AsBoolean: the effective boolean value; a null node fails with a
      NullReferenceException, a node without one with a query error. */
  function AsBoolean(n: Option<ValuedNode>): (r: Outcome<bool>)
    ensures r.Value? <==> n.Some? && n.value.ebv.Some?
    ensures r.Value? ==> r.value == n.value.ebv.value
    ensures n.None? ==> r.Thrown? && !IsRdfQueryException(r.fault)
    ensures n.Some? && n.value.ebv.None? ==> r.Thrown? && IsRdfQueryException(r.fault)
  {
    match n
    case None => Thrown(SystemFault("Object reference not set to an instance of an object"))
    case Some(v) =>
      match v.ebv
      case None => Thrown(QueryFault("Unable to cast to an Effective Boolean Value"))
      case Some(b) => Value(b)
  }

  /** AsSafeBoolean: the effective boolean value, false when there is none. */
  function AsSafeBoolean(n: Option<ValuedNode>): (b: bool)
    ensures b <==> n.Some? && n.value.ebv == Some(true)
  {
    match AsBoolean(n)
    case Value(b) => b
    case Thrown(_) => false
  }

  // ---------------------------------------------------------------------
  // AND

  /** The try block of AndExpression.Evaluate: a false left operand decides
      the result, a true one leaves it to the right operand. */
  function TryAnd(left: Evaluation, right: Evaluation): (r: Outcome<bool>)
    ensures r.Value? <==> TruthOf(left) == F || (TruthOf(left) == T && TruthOf(right) != E)
    ensures r.Value? ==> (r.value <==> TruthOf(left) == T && TruthOf(right) == T)
    ensures left.Thrown? ==> r == Thrown(left.fault)
  {
    match left
    case Thrown(f) => Thrown(f)
    case Value(n) =>
      match AsBoolean(n)
      case Thrown(f) => Thrown(f)
      case Value(b) =>
        if !b then Value(false)
        else match right
          case Thrown(f) => Thrown(f)
          case Value(m) => AsBoolean(m)
  }

  /** AndExpression.Evaluate, given the outcomes of its operands. On an
      error in the try block the right operand is evaluated again: an
      exception it raises escapes as it is, a safe boolean false gives
      false, and otherwise the caught error is rethrown, wrapped in a query
      exception when it is not one. */
  function AndOf(left: Evaluation, right: Evaluation): (r: Evaluation)
    ensures BooleanResult(r)
    ensures TruthOf(left) == F ==> r == Value(Some(BooleanNode(false)))
    ensures TruthOf(left) != F && right.Thrown? ==> r == right
    ensures r.Thrown? && right.Value? ==> IsRdfQueryException(r.fault)
  {
    match TryAnd(left, right)
    case Value(b) => Value(Some(BooleanNode(b)))
    case Thrown(ex) =>
      match right
      case Thrown(f) => Thrown(f)
      case Value(m) =>
        if !AsSafeBoolean(m) then Value(Some(BooleanNode(false)))
        else if IsRdfQueryException(ex) then Thrown(ex)
        else Thrown(WrappedFault("Error evaluating AND expression", ex))
  }

  // ---------------------------------------------------------------------
  // isBLANK, STRSTARTS, STRENDS

  /** isBLANK of an operand's node: false for null, otherwise whether it is
      a blank node. */
  function IsBlankValue(n: Option<ValuedNode>): (b: bool)
    ensures b <==> n.Some? && n.value.nodeType == Blank
  {
    match n
    case None => false
    case Some(v) => v.nodeType == Blank
  }

  /** StrStartsFunction.ValueInternal: an ordinal prefix test. */
  function StrStartsValue(stringLit: string, argLit: string): (b: bool)
    ensures b <==> |argLit| <= |stringLit| && forall i :: 0 <= i < |argLit| ==> stringLit[i] == argLit[i]
  {
    StartsWith(stringLit, argLit)
  }

  /** StrEndsFunction.ValueInternal: an ordinal suffix test. */
  function StrEndsValue(stringLit: string, argLit: string): (b: bool)
    ensures b <==> |argLit| <= |stringLit| &&
                   forall i :: 0 <= i < |argLit| ==> stringLit[|stringLit| - |argLit| + i] == argLit[i]
  {
    EndsWith(stringLit, argLit)
  }

  /** STRSTARTS holds exactly when the string is the argument followed by
      something; an empty argument always qualifies. */
  lemma StrStartsMeansPrefix(s: string, a: string)
    ensures StrStartsValue(s, a) <==> exists t :: s == a + t
    ensures StrStartsValue(s, "")
  {
    if StrStartsValue(s, a) {
      assert s == a + s[|a|..];
    }
    if exists t :: s == a + t {
      var t :| s == a + t;
      assert s[..|a|] == a;
    }
    assert s[..0] == "";
  }

  /** STRENDS holds exactly when the string is something followed by the
      argument; an empty argument always qualifies. */
  lemma StrEndsMeansSuffix(s: string, a: string)
    ensures StrEndsValue(s, a) <==> exists t :: s == t + a
    ensures StrEndsValue(s, "")
  {
    if StrEndsValue(s, a) {
      assert s == s[..|s| - |a|] + a;
    }
    if exists t :: s == t + a {
      var t :| s == t + a;
      assert s[|s| - |a|..] == a;
    }
    assert s[|s|..] == "";
  }

  predicate IsLiteralNode(n: Option<ValuedNode>)
  {
    n.Some? && n.value.nodeType == Literal
  }

  /** The evaluation of a binary string function: both operands must be
      literals; the result is the boolean the test gives on their values. */
  function StringFunctionOf(str: Evaluation, arg: Evaluation, test: (string, string) -> bool): (r: Evaluation)
    ensures str.Thrown? ==> r == str
    ensures str.Value? && arg.Thrown? ==> r == arg
    ensures r.Value? <==> str.Value? && arg.Value? && IsLiteralNode(str.value) && IsLiteralNode(arg.value)
    ensures r.Value? ==> r == Value(Some(BooleanNode(test(str.value.value.value, arg.value.value.value))))
    ensures r.Thrown? && str.Value? && arg.Value? ==> IsRdfQueryException(r.fault)
  {
    match str
    case Thrown(f) => Thrown(f)
    case Value(x) =>
      match arg
      case Thrown(f) => Thrown(f)
      case Value(y) =>
        if x.Some? && y.Some? && x.value.nodeType == Literal && y.value.nodeType == Literal
        then Value(Some(BooleanNode(test(x.value.value, y.value.value))))
        else Thrown(QueryFault("Unable to evaluate a string function on non-literal arguments"))
  }

  // ---------------------------------------------------------------------
  // Expressions

  /** Every expression of the model evaluates to a boolean literal or
      fails; isBLANK fails only when its operand does. */
  function Evaluate(e: Expr, ctx: Leaves): (r: Evaluation)
    ensures !e.Leaf? ==> BooleanResult(r)
    ensures e.IsBlank? ==> (r.Thrown? <==> Evaluate(e.operand, ctx).Thrown?)
  {
    match e
    case And(l, r) => AndOf(Evaluate(l, ctx), Evaluate(r, ctx))
    case IsBlank(x) =>
      (match Evaluate(x, ctx)
       case Thrown(f) => Thrown(f)
       case Value(n) => Value(Some(BooleanNode(IsBlankValue(n)))))
    case StrStarts(a, b) => StringFunctionOf(Evaluate(a, ctx), Evaluate(b, ctx), StrStartsValue)
    case StrEnds(a, b) => StringFunctionOf(Evaluate(a, ctx), Evaluate(b, ctx), StrEndsValue)
    case Leaf(id) => ctx.eval(id)
  }

  /** AND is the one binary operator among the four; the other three are
      functions. */
  function Type(e: Expr, ctx: Leaves): (r: ExpressionType)
    ensures r == BinaryOperator <==> e.And? || (e.Leaf? && ctx.kind(e.id) == BinaryOperator)
    ensures e.IsBlank? || e.StrStarts? || e.StrEnds? ==> r == Function
  {
    match e
    case And(_, _) => BinaryOperator
    case IsBlank(_) => Function
    case StrStarts(_, _) => Function
    case StrEnds(_, _) => Function
    case Leaf(id) => ctx.kind(id)
  }

  /** Each of the four kinds has its own functor. */
  function Functor(e: Expr, ctx: Leaves): (r: string)
    ensures !e.Leaf? ==> (r == AND_FUNCTOR <==> e.And?) && (r == KEYWORD_ISBLANK <==> e.IsBlank?) &&
                         (r == KEYWORD_STRSTARTS <==> e.StrStarts?) && (r == KEYWORD_STRENDS <==> e.StrEnds?)
  {
    match e
    case And(_, _) => AND_FUNCTOR
    case IsBlank(_) => KEYWORD_ISBLANK
    case StrStarts(_, _) => KEYWORD_STRSTARTS
    case StrEnds(_, _) => KEYWORD_STRENDS
    case Leaf(id) => ctx.functor(id)
  }

  function ToString(e: Expr, ctx: Leaves): string
    decreases e, 0
  {
    match e
    case And(l, r) => OperandText(l, ctx) + " && " + OperandText(r, ctx)
    case IsBlank(x) => "ISBLANK(" + ToString(x, ctx) + ")"
    case StrStarts(a, b) => KEYWORD_STRSTARTS + "(" + ToString(a, ctx) + ", " + ToString(b, ctx) + ")"
    case StrEnds(a, b) => KEYWORD_STRENDS + "(" + ToString(a, ctx) + ", " + ToString(b, ctx) + ")"
    case Leaf(id) => ctx.text(id)
  }

  /** An operand of AND, parenthesised when it is a binary operator. */
  function OperandText(e: Expr, ctx: Leaves): (r: string)
    ensures Type(e, ctx) == BinaryOperator ==> |r| >= 2 && r[0] == '(' && r[|r| - 1] == ')' && r[1..|r| - 1] == ToString(e, ctx)
    ensures Type(e, ctx) != BinaryOperator ==> r == ToString(e, ctx)
    decreases e, 1
  {
    if Type(e, ctx) == BinaryOperator then "(" + ToString(e, ctx) + ")" else ToString(e, ctx)
  }

  /** The text of a function call is its keyword and its operands' texts
      in parentheses, from which the operand texts can be read back; an
      AND's text joins its operands' texts with " && ". */
  lemma TextShape(e: Expr, ctx: Leaves)
    ensures e.IsBlank? ==> var r := ToString(e, ctx);
      |r| >= 9 && r[..8] == "ISBLANK(" && r[|r| - 1] == ')' && r[8..|r| - 1] == ToString(e.operand, ctx)
    ensures e.StrStarts? ==> StartsWith(ToString(e, ctx), KEYWORD_STRSTARTS + "(" + ToString(e.str, ctx) + ", ") &&
                             EndsWith(ToString(e, ctx), ToString(e.arg, ctx) + ")")
    ensures e.StrEnds? ==> StartsWith(ToString(e, ctx), KEYWORD_STRENDS + "(" + ToString(e.str, ctx) + ", ") &&
                           EndsWith(ToString(e, ctx), ToString(e.arg, ctx) + ")")
    ensures e.And? ==> StartsWith(ToString(e, ctx), OperandText(e.left, ctx) + " && ") &&
                       EndsWith(ToString(e, ctx), " && " + OperandText(e.right, ctx))
  {
    match e
    case IsBlank(x) =>
      var r := ToString(e, ctx);
      assert r == "ISBLANK(" + ToString(x, ctx) + ")";
      assert r[..8] == "ISBLANK(";
    case StrStarts(a, b) =>
      var p := KEYWORD_STRSTARTS + "(" + ToString(a, ctx) + ", ";
      assert ToString(e, ctx) == p + (ToString(b, ctx) + ")");
      AppendedSuffix(p, ToString(b, ctx) + ")");
    case StrEnds(a, b) =>
      var p := KEYWORD_STRENDS + "(" + ToString(a, ctx) + ", ";
      assert ToString(e, ctx) == p + (ToString(b, ctx) + ")");
      AppendedSuffix(p, ToString(b, ctx) + ")");
    case And(l, r) =>
      assert ToString(e, ctx) == OperandText(l, ctx) + (" && " + OperandText(r, ctx));
      AppendedSuffix(OperandText(l, ctx), " && " + OperandText(r, ctx));
    case Leaf(_) =>
  }

  /** Transform: the same kind of expression over the transformed operands,
      in the same order. */
  function Transform(e: Expr, transformer: Expr -> Expr): (r: Expr)
    requires !e.Leaf?
    ensures !r.Leaf?
    ensures r.And? <==> e.And?
    ensures r.IsBlank? <==> e.IsBlank?
    ensures r.StrStarts? <==> e.StrStarts?
    ensures r.StrEnds? <==> e.StrEnds?
    ensures e.And? ==> r == And(transformer(e.left), transformer(e.right))
    ensures e.IsBlank? ==> r == IsBlank(transformer(e.operand))
    ensures e.StrStarts? ==> r == StrStarts(transformer(e.str), transformer(e.arg))
    ensures e.StrEnds? ==> r == StrEnds(transformer(e.str), transformer(e.arg))
  {
    match e
    case And(l, r) => And(transformer(l), transformer(r))
    case IsBlank(x) => IsBlank(transformer(x))
    case StrStarts(a, b) => StrStarts(transformer(a), transformer(b))
    case StrEnds(a, b) => StrEnds(transformer(a), transformer(b))
  }

  // ---------------------------------------------------------------------
  // Properties

  /** The three truth values of section 17.2 of the W3C SPARQL 1.1 Query
      Language: true, false and error. */
  datatype Truth = T | F | E

  /** The truth value an evaluation stands for: an exception, a null node
      and a node without an effective boolean value are all errors. */
  function TruthOf(o: Evaluation): Truth
  {
    match o
    case Thrown(_) => E
    case Value(n) =>
      match AsBoolean(n)
      case Thrown(_) => E
      case Value(b) => if b then T else F
  }

  /** The logical-and truth table of section 17.2 of the W3C SPARQL 1.1
      Query Language. */
  function TableAnd(a: Truth, b: Truth): Truth
  {
    if a == F || b == F then F
    else if a == T && b == T then T
    else E
  }

  /** An operand that evaluated without exception to a node with no
      effective boolean value (or to null). */
  predicate NoEbv(o: Evaluation)
  {
    o.Value? && AsBoolean(o.value).Thrown?
  }

  /** AND follows the truth table in every case but one: a right operand
      without an effective boolean value next to a left operand that is
      not false. */
  lemma AndFollowsTruthTable(l: Expr, r: Expr, ctx: Leaves)
    requires !(NoEbv(Evaluate(r, ctx)) && TruthOf(Evaluate(l, ctx)) != F)
    ensures TruthOf(Evaluate(And(l, r), ctx)) == TableAnd(TruthOf(Evaluate(l, ctx)), TruthOf(Evaluate(r, ctx)))
  {
  }

  /** The exception: there the catch block's safe boolean turns the error
      into false, where the truth table says error. */
  lemma AndSwallowsRightEbvError(l: Expr, r: Expr, ctx: Leaves)
    requires NoEbv(Evaluate(r, ctx)) && TruthOf(Evaluate(l, ctx)) != F
    ensures Evaluate(And(l, r), ctx) == Value(Some(BooleanNode(false)))
    ensures TableAnd(TruthOf(Evaluate(l, ctx)), TruthOf(Evaluate(r, ctx))) == E
  {
  }

  /** A false left operand gives false whatever the right operand does. */
  lemma FalseLeftDecides(left: Evaluation, right1: Evaluation, right2: Evaluation)
    requires TruthOf(left) == F
    ensures AndOf(left, right1) == AndOf(left, right2) == Value(Some(BooleanNode(false)))
  {
  }

  /** A true left operand gives the right operand's boolean. */
  lemma TrueLeftDefers(left: Evaluation, right: Evaluation)
    requires TruthOf(left) == T && TruthOf(right) != E
    ensures AndOf(left, right) == Value(Some(BooleanNode(TruthOf(right) == T)))
  {
  }

  /** A failing left operand with a true right operand rethrows the left's
      failure, wrapped when it was not a query exception. */
  lemma ErrorLeftTrueRight(left: Evaluation, right: Evaluation)
    requires left.Thrown? && TruthOf(right) == T
    ensures IsRdfQueryException(left.fault) ==> AndOf(left, right) == Thrown(left.fault)
    ensures !IsRdfQueryException(left.fault) ==>
      AndOf(left, right) == Thrown(WrappedFault("Error evaluating AND expression", left.fault))
  {
  }

  /** AND renders its operands around " && ", so nested ANDs show their
      grouping: the two groupings of three leaves render differently when
      the first leaf's text does not start with a parenthesis. */
  lemma AndGroupingVisible(a: Expr, b: Expr, c: Expr, ctx: Leaves)
    requires a.Leaf? && Type(a, ctx) != BinaryOperator
    requires |ToString(a, ctx)| > 0 && ToString(a, ctx)[0] != '('
    ensures ToString(And(And(a, b), c), ctx) != ToString(And(a, And(b, c)), ctx)
  {
    var left, right := ToString(And(And(a, b), c), ctx), ToString(And(a, And(b, c)), ctx);
    var grouped, first := OperandText(And(a, b), ctx), OperandText(a, ctx);
    assert grouped[0] == '(';
    assert left[..|grouped + " && "|] == grouped + " && ";
    assert left[0] == (grouped + " && ")[0] == '(';
    assert first == ToString(a, ctx);
    assert right[..|first + " && "|] == first + " && ";
    assert right[0] == (first + " && ")[0] == first[0];
  }

  /** isBLANK renders as ISBLANK(operand) and is false for a null operand. */
  lemma IsBlankOfNull(x: Expr, ctx: Leaves)
    requires Evaluate(x, ctx) == Value(None)
    ensures Evaluate(IsBlank(x), ctx) == Value(Some(BooleanNode(false)))
  {
  }

  /** Transforming with the identity changes nothing, and transforming
      twice is transforming once with the composition. */
  lemma TransformIdentityAndComposition(e: Expr, f: Expr -> Expr, g: Expr -> Expr)
    requires !e.Leaf?
    ensures Transform(e, x => x) == e
    ensures Transform(Transform(e, f), g) == Transform(e, x => g(f(x)))
  {
  }
}
