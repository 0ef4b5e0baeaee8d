/**
  Monotonicity of expressions (common/planners/src/plan_expression_monotonicity.rs): a stack
  visitor that combines the functions' own answers, and its use for sort keys.
 */
module Monotonicity {
  import opened Wrappers
  import opened Expressions
  import opened Visitor
  import opened StackVisitors

  /** Direction, constancy and the values at the two ends of the variables' ranges. */
  datatype Mono = Mono(
    isMonotonic: bool, isPositive: bool, isConstant: bool, left: Option<Value>, right: Option<Value>)

  const DEFAULT_MONO := Mono(false, true, false, None, None)
  const CONSTANT_MONO := Mono(true, true, true, None, None)

  /** The function factory as far as the visitor uses it. */
  datatype Functions = Functions(
    get: (string, seq<DataType>) -> Result<DataType, string>,
    monotonicity: (string, seq<DataType>, seq<Mono>) -> Result<Mono, string>,
    deterministic: string -> Result<bool, string>,
    evaluates: (string, seq<Value>) -> bool,
    constant: (DataValue, DataType) -> bool)

  type Bounds = (Option<Value>, Option<Value>)

  datatype Analysis = Analysis(
    semantics: Semantics,
    functions: Functions,
    schema: string -> Option<DataType>,
    variables: map<string, Bounds>,
    singlePoint: bool)

  type Item = (DataType, Mono)
  type MonoState = State<Analysis, Item>

  function Lefts(items: seq<Item>): seq<Option<Value>>
  {
    seq(|items|, i requires 0 <= i < |items| => items[i].1.left)
  }

  function Rights(items: seq<Item>): seq<Option<Value>>
  {
    seq(|items|, i requires 0 <= i < |items| => items[i].1.right)
  }

  /** `try_calculate_boundary`: the function at the arguments' ends, if all of them are known. */
  function Boundary(a: Analysis, op: string, ends: seq<Option<Value>>): Result<Option<Value>, PlanError>
  {
    if exists i :: 0 <= i < |ends| && ends[i].None? then Ok(None)
    else
      var vs := seq(|ends|, i requires 0 <= i < |ends| => ends[i].value);
      if a.functions.evaluates(op, vs) then Ok(Some(a.semantics.apply(op, vs))) else Err(Library(op))
  }

  /** `visit_function` on its arguments. */
  function FunctionMono(a: Analysis, op: string, items: seq<Item>): Result<Item, PlanError>
  {
    var types := seq(|items|, i requires 0 <= i < |items| => items[i].0);
    var monos := seq(|items|, i requires 0 <= i < |items| => items[i].1);
    var t :- FromFactory(a.functions.get(op, types));
    var m :- OwnMono(a, op, types, monos);
    if !m.isMonotonic && !m.isConstant then Err(NotMonotonic(op))
    else
      var left :- Boundary(a, op, Lefts(items));
      var right :- Boundary(a, op, Rights(items));
      Ok((t, m.(left := left, right := right)))
  }

  function OwnMono(a: Analysis, op: string, types: seq<DataType>, monos: seq<Mono>): Result<Mono, PlanError>
  {
    if !a.singlePoint then FromFactory(a.functions.monotonicity(op, types, monos))
    else
      var deterministic :- FromFactory(a.functions.deterministic(op));
      Ok(if deterministic then CONSTANT_MONO else DEFAULT_MONO)
  }

  function NodeMono(a: Analysis, e: Expression, items: seq<Item>): Result<Item, PlanError>
    requires |items| == |Children(e)|
  {
    match e
    case Column(c) =>
      if c !in a.variables then Err(UnknownColumn(c))
      else
        (match a.schema(c)
         case None => Err(UnknownColumn(c))
         case Some(t) => Ok((t, Mono(true, true, false, a.variables[c].0, a.variables[c].1))))
    case Literal(v, _, t) =>
      if !a.functions.constant(v, t) then Err(Unsupported)
      else
        var value := a.semantics.literal(v, t);
        Ok((t, Mono(true, true, true, Some(value), Some(value))))
    case Binary(op, _, _) => FunctionMono(a, op, items)
    case Unary(op, _) => FunctionMono(a, op, items)
    case ScalarFunction(op, _) => FunctionMono(a, op, items)
    case _ => Err(Unsupported)
  }

  function PostVisit(s: MonoState, e: Expression): Result<MonoState, PlanError>
  {
    if e.Column? || e.Literal? then
      var x :- NodeMono(s.inner, e, []);
      Ok(State(s.inner, s.stack + [x]))
    else if e.Binary? || e.Unary? || e.ScalarFunction? then
      match Pop(s.stack, |Children(e)|)
      case Underflow => Err(StackUnderflow)
      case Arguments(items, rest) =>
        var x :- NodeMono(s.inner, e, items);
        Ok(State(s.inner, rest + [x]))
    else Err(Unsupported)
  }

  function MonoVisitor(): Visitor<MonoState, PlanError>
  {
    Visitor((s: MonoState, e: Expression) => Ok(Continue(s)),
            (s: MonoState, e: Expression) => PostVisit(s, e))
  }

  function MonoHooks(): Hooks<Analysis, Item, PlanError>
  {
    Hooks((a: Analysis, e: Expression) => Ok((a, true)),
          (a: Analysis, e: Expression, items: seq<Item>) =>
            if |items| != |Children(e)| then Err(StackUnderflow)
            else match NodeMono(a, e, items) case Ok(x) => Ok((a, x)) case Err(x) => Err(x))
  }

  /** `check_expression`: any error means nothing is known. */
  method CheckExpression(a: Analysis, e: Expression) returns (m: Mono)
    ensures m == Checked(a, e)
    ensures m.isMonotonic || m.isConstant <==> Everywhere(AnsweredIn(a), e)
  {
    var w := Visit(MonoVisitor(), State(a, []), e);
    MonoWalk(a, e);
    AnsweredIff(a, e);
    AnsweredIsKnown(a, e);
    if w.Err? { return DEFAULT_MONO; }
    if |w.value.stack| != 1 { return DEFAULT_MONO; }
    m := w.value.stack[0].1;
  }

  /** The answer by recursion over the expression. */
  function MonoOf(a: Analysis, e: Expression): Result<Item, PlanError>
    decreases Size(e), 0
  {
    var items :- MonosOf(a, Children(e));
    NodeMono(a, e, items)
  }

  function MonosOf(a: Analysis, es: seq<Expression>): (r: Result<seq<Item>, PlanError>)
    ensures r.Ok? ==> |r.value| == |es|
    decreases SizeAll(es), 1
  {
    if es == [] then Ok([])
    else
      var x :- MonoOf(a, es[|es| - 1]);
      var xs :- MonosOf(a, es[..|es| - 1]);
      Ok(xs + [x])
  }

  function Checked(a: Analysis, e: Expression): Mono
  {
    match MonoOf(a, e) case Ok((_, m)) => m case Err(_) => DEFAULT_MONO
  }

  lemma {:induction false} MonosOfElement(a: Analysis, es: seq<Expression>, i: nat)
    requires MonosOf(a, es).Ok? && i < |es|
    ensures MonoOf(a, es[i]) == Ok(MonosOf(a, es).value[i])
    decreases |es|
  {
    if i < |es| - 1 {
      MonosOfElement(a, es[..|es| - 1], i);
    }
  }

  lemma MonosOfElements(a: Analysis, es: seq<Expression>)
    requires MonosOf(a, es).Ok?
    ensures forall i :: 0 <= i < |es| ==> MonoOf(a, es[i]) == Ok(MonosOf(a, es).value[i])
  {
    forall i | 0 <= i < |es|
      ensures MonoOf(a, es[i]) == Ok(MonosOf(a, es).value[i])
    {
      MonosOfElement(a, es, i);
    }
  }

  lemma MonoVisitorImplements()
    ensures Implements(MonoVisitor(), MonoHooks())
  {
    var v, h := MonoVisitor(), MonoHooks();
    forall a, stack, e, items | |items| == |Children(e)| ensures PostMatches(v, h, a, stack, e, items) {
      PopPushed(stack, items);
      assert items == [] ==> stack + Reverse(items) == stack;
    }
  }

  lemma {:induction false} FoldIsMonoOf(a: Analysis, e: Expression)
    ensures Fold(MonoHooks(), a, e) == match MonoOf(a, e) case Ok(x) => Ok((a, x)) case Err(x) => Err(x)
    decreases Size(e), 0
  {
    FoldAllIsMonosOf(a, Children(e));
  }

  lemma {:induction false} FoldAllIsMonosOf(a: Analysis, es: seq<Expression>)
    ensures FoldAll(MonoHooks(), a, es) == match MonosOf(a, es) case Ok(xs) => Ok((a, xs)) case Err(x) => Err(x)
    decreases SizeAll(es), 1
  {
    if es != [] {
      FoldIsMonoOf(a, es[|es| - 1]);
      FoldAllIsMonosOf(a, es[..|es| - 1]);
    }
  }

  lemma MonoWalk(a: Analysis, e: Expression)
    ensures Walk(MonoVisitor(), State(a, []), e) ==
            match MonoOf(a, e) case Ok(x) => Ok(State(a, [x])) case Err(x) => Err(x)
  {
    MonoVisitorImplements();
    WalkIsFold(MonoVisitor(), MonoHooks(), a, [], e);
    FoldIsMonoOf(a, e);
    assert forall x: Item :: [] + [x] == [x];
  }

  // ----- When an answer is given -----

  ghost predicate IsFunction(e: Expression)
  {
    e.Binary? || e.Unary? || e.ScalarFunction?
  }

  ghost function OpOf(e: Expression): string
  {
    match e case Binary(op, _, _) => op case Unary(op, _) => op case ScalarFunction(op, _) => op case _ => ""
  }

  /** The types and the answers of the arguments, separated. */
  ghost predicate Splits(items: seq<Item>, types: seq<DataType>, monos: seq<Mono>)
  {
    |types| == |monos| == |items| && forall i :: 0 <= i < |items| ==> items[i] == (types[i], monos[i])
  }

  /** What the function itself says; at a single point, that it is constant, if it is deterministic. */
  ghost predicate Says(a: Analysis, op: string, types: seq<DataType>, monos: seq<Mono>, m: Mono)
  {
    && (m.isMonotonic || m.isConstant)
    && if a.singlePoint then a.functions.deterministic(op) == Ok(true) && m == Mono(true, true, true, None, None)
       else a.functions.monotonicity(op, types, monos) == Ok(m)
  }

  /** At ends that are all known, the function evaluates. */
  ghost predicate EvaluatesAt(a: Analysis, op: string, ends: seq<Option<Value>>)
  {
    (forall i :: 0 <= i < |ends| ==> ends[i].Some?) ==>
      exists vs: seq<Value> ::
        |vs| == |ends| && (forall i :: 0 <= i < |ends| ==> ends[i] == Some(vs[i])) && a.functions.evaluates(op, vs)
  }

  ghost predicate FunctionAnswers(a: Analysis, op: string, items: seq<Item>, t: DataType, m: Mono)
  {
    && (exists types, monos ::
          Splits(items, types, monos) && a.functions.get(op, types) == Ok(t) && Says(a, op, types, monos, m))
    && EvaluatesAt(a, op, Lefts(items)) && EvaluatesAt(a, op, Rights(items))
  }

  ghost predicate Answers(a: Analysis, es: seq<Expression>, items: seq<Item>)
  {
    |items| == |es| && forall i :: 0 <= i < |es| ==> MonoOf(a, es[i]) == Ok(items[i])
  }

  /** What a node needs in order to be answered, given the answers for its children. */
  ghost predicate NodeAnswered(a: Analysis, e: Expression)
  {
    match e
    case Column(c) => c in a.variables && a.schema(c).Some?
    case Literal(v, _, t) => a.functions.constant(v, t)
    case _ =>
      IsFunction(e) && exists items, t, m :: Answers(a, Children(e), items) && FunctionAnswers(a, OpOf(e), items, t, m)
  }

  ghost function AnsweredIn(a: Analysis): Expression -> bool
  {
    (e: Expression) => NodeAnswered(a, e)
  }

  lemma BoundaryIff(a: Analysis, op: string, ends: seq<Option<Value>>)
    ensures Boundary(a, op, ends).Ok? <==> EvaluatesAt(a, op, ends)
  {
    if forall i :: 0 <= i < |ends| ==> ends[i].Some? {
      var vs := seq(|ends|, i requires 0 <= i < |ends| => ends[i].value);
      assert forall us: seq<Value> ::
          |us| == |ends| && (forall i :: 0 <= i < |ends| ==> ends[i] == Some(us[i])) ==> us == vs;
    }
  }

  /** The answer has the function's type and says of constancy and direction what the function says. */
  ghost predicate SaysSame(x: Item, t: DataType, m: Mono)
  {
    x.0 == t && x.1.isMonotonic == m.isMonotonic && x.1.isPositive == m.isPositive && x.1.isConstant == m.isConstant
  }

  lemma OwnMonoIff(a: Analysis, op: string, types: seq<DataType>, monos: seq<Mono>, m: Mono)
    ensures OwnMono(a, op, types, monos) == Ok(m) && (m.isMonotonic || m.isConstant) <==> Says(a, op, types, monos, m)
  {
  }

  lemma SplitsUnique(items: seq<Item>, types: seq<DataType>, monos: seq<Mono>)
    requires Splits(items, types, monos)
    ensures types == seq(|items|, i requires 0 <= i < |items| => items[i].0)
    ensures monos == seq(|items|, i requires 0 <= i < |items| => items[i].1)
  {
  }

  lemma FunctionMonoIff(a: Analysis, op: string, items: seq<Item>)
    ensures FunctionMono(a, op, items).Ok? <==> exists t, m :: FunctionAnswers(a, op, items, t, m)
    ensures forall t, m :: FunctionAnswers(a, op, items, t, m) ==> SaysSame(FunctionMono(a, op, items).value, t, m)
  {
    var types := seq(|items|, i requires 0 <= i < |items| => items[i].0);
    var monos := seq(|items|, i requires 0 <= i < |items| => items[i].1);
    assert Splits(items, types, monos);
    BoundaryIff(a, op, Lefts(items));
    BoundaryIff(a, op, Rights(items));
    if FunctionMono(a, op, items).Ok? {
      var t, m := a.functions.get(op, types).value, OwnMono(a, op, types, monos).value;
      OwnMonoIff(a, op, types, monos, m);
      assert FunctionAnswers(a, op, items, t, m);
    }
    forall t, m | FunctionAnswers(a, op, items, t, m)
      ensures FunctionMono(a, op, items).Ok? && SaysSame(FunctionMono(a, op, items).value, t, m)
    {
      var types', monos' :|
        Splits(items, types', monos') && a.functions.get(op, types') == Ok(t) && Says(a, op, types', monos', m);
      SplitsUnique(items, types', monos');
      OwnMonoIff(a, op, types, monos, m);
    }
  }

  lemma MonosExistStep(a: Analysis, rest: seq<Expression>, last: Expression)
    ensures MonosOf(a, rest + [last]).Ok? <==> MonosOf(a, rest).Ok? && MonoOf(a, last).Ok?
  {
    var es := rest + [last];
    assert es[..|es| - 1] == rest && es[|es| - 1] == last;
  }

  lemma {:induction false} MonosExistIff(a: Analysis, es: seq<Expression>)
    ensures MonosOf(a, es).Ok? <==> forall i :: 0 <= i < |es| ==> MonoOf(a, es[i]).Ok?
    decreases |es|
  {
    if es != [] {
      var rest, last := es[..|es| - 1], es[|es| - 1];
      MonosExistStep(a, rest, last);
      assert es == rest + [last];
      MonosExistIff(a, rest);
    }
  }

  lemma AnswersUnique(a: Analysis, es: seq<Expression>, items: seq<Item>)
    requires MonosOf(a, es).Ok?
    ensures Answers(a, es, items) <==> items == MonosOf(a, es).value
  {
    MonosOfElements(a, es);
  }

  lemma NodeAnsweredIff(a: Analysis, e: Expression)
    requires MonosOf(a, Children(e)).Ok?
    ensures MonoOf(a, e).Ok? <==> NodeAnswered(a, e)
  {
    if IsFunction(e) {
      var items := MonosOf(a, Children(e)).value;
      AnswersUnique(a, Children(e), items);
      FunctionMonoIff(a, OpOf(e), items);
      forall xs | Answers(a, Children(e), xs) ensures xs == items {
        AnswersUnique(a, Children(e), xs);
      }
    }
  }

  /** An expression is answered exactly when every subexpression of it is. */
  lemma {:induction false} AnsweredIff(a: Analysis, e: Expression)
    ensures MonoOf(a, e).Ok? <==> Everywhere(AnsweredIn(a), e)
    decreases e
  {
    var cs := Children(e);
    forall i | 0 <= i < |cs|
      ensures MonoOf(a, cs[i]).Ok? <==> Everywhere(AnsweredIn(a), cs[i])
    {
      AnsweredIff(a, cs[i]);
    }
    EverywhereUnfold(AnsweredIn(a), e);
    MonosExistIff(a, cs);
    if MonosOf(a, cs).Ok? {
      NodeAnsweredIff(a, e);
    }
  }

  /** The answer for a function node is the function's own, on the answers for its arguments. */
  lemma FunctionAnswerIs(a: Analysis, e: Expression)
    requires IsFunction(e) && MonoOf(a, e).Ok?
    ensures exists items, t, m ::
              && Answers(a, Children(e), items) && FunctionAnswers(a, OpOf(e), items, t, m)
              && SaysSame(MonoOf(a, e).value, t, m)
  {
    var items := MonosOf(a, Children(e)).value;
    AnswersUnique(a, Children(e), items);
    FunctionMonoIff(a, OpOf(e), items);
    var t, m :| FunctionAnswers(a, OpOf(e), items, t, m);
  }

  /** What is answered is monotonic or constant. */
  lemma AnsweredIsKnown(a: Analysis, e: Expression)
    ensures MonoOf(a, e).Ok? ==> MonoOf(a, e).value.1.isMonotonic || MonoOf(a, e).value.1.isConstant
  {
  }

  // ----- Soundness -----

  /** An order on values, as sorting uses it on non-null values. */
  ghost predicate Preorder(leq: (Value, Value) -> bool)
  {
    && (forall x :: leq(x, x))
    && (forall x, y, z :: leq(x, y) && leq(y, z) ==> leq(x, z))
  }

  /** `row` respects the range of every variable. */
  ghost predicate InRange(leq: (Value, Value) -> bool, variables: map<string, Bounds>, row: Row)
  {
    forall c :: c in variables ==>
      && (variables[c].0.Some? ==> leq(variables[c].0.value, row(c)))
      && (variables[c].1.Some? ==> leq(row(c), variables[c].1.value))
  }

  /** `p` is at or below `q` in every variable. */
  ghost predicate RowLeq(leq: (Value, Value) -> bool, variables: map<string, Bounds>, p: Row, q: Row)
  {
    forall c :: c in variables ==> leq(p(c), q(c))
  }

  /** The answer `m` is right about a move from value `u` to value `v`. */
  ghost predicate Follows(leq: (Value, Value) -> bool, m: Mono, u: Value, v: Value)
  {
    && (m.isConstant ==> u == v)
    && (m.isMonotonic && m.isPositive ==> leq(u, v))
    && (m.isMonotonic && !m.isPositive ==> leq(v, u))
  }

  /** `u` lies between the ends that `m` reports, in its direction. */
  ghost predicate Between(leq: (Value, Value) -> bool, m: Mono, u: Value)
  {
    && (m.left.Some? ==> Follows(leq, m, m.left.value, u))
    && (m.right.Some? ==> Follows(leq, m, u, m.right.value))
  }

  /**
    A function's own answer is sound: whenever its arguments move as their monotonicities say,
    within the ranges they report, the result moves as the answer says.
   */
  ghost predicate FunctionSound(leq: (Value, Value) -> bool, a: Analysis, op: string)
  {
    forall types, monos, us, vs ::
      |us| == |vs| == |monos| && a.functions.monotonicity(op, types, monos).Ok? && ArgumentsMove(leq, monos, us, vs)
      ==> Follows(leq, a.functions.monotonicity(op, types, monos).value,
                  a.semantics.apply(op, us), a.semantics.apply(op, vs))
  }

  ghost predicate ArgumentsMove(leq: (Value, Value) -> bool, monos: seq<Mono>, us: seq<Value>, vs: seq<Value>)
    requires |us| == |vs| == |monos|
  {
    forall i :: 0 <= i < |monos| ==>
      Follows(leq, monos[i], us[i], vs[i]) && Between(leq, monos[i], us[i]) && Between(leq, monos[i], vs[i])
  }

  /** The row with every variable that has one at its left (right) end. */
  ghost function Leftmost(variables: map<string, Bounds>, row: Row): Row
  {
    (c: string) => if c in variables && variables[c].0.Some? then variables[c].0.value else row(c)
  }

  ghost function Rightmost(variables: map<string, Bounds>, row: Row): Row
  {
    (c: string) => if c in variables && variables[c].1.Some? then variables[c].1.value else row(c)
  }

  /** Two rows the analysis compares: ordered in range, or, for a single point, equal on the variables. */
  ghost predicate Comparable(leq: (Value, Value) -> bool, a: Analysis, p: Row, q: Row)
  {
    && InRange(leq, a.variables, p) && InRange(leq, a.variables, q) && RowLeq(leq, a.variables, p, q)
    && (a.singlePoint ==> forall c :: c in a.variables ==> p(c) == q(c))
  }

  lemma {:induction false} MonoColumns(a: Analysis, e: Expression)
    requires MonoOf(a, e).Ok?
    ensures forall c :: c in Columns(e) ==> c in a.variables
    decreases e
  {
    var cs := Children(e);
    MonosOfElements(a, cs);
    forall i | 0 <= i < |cs| ensures forall c :: c in Columns(cs[i]) ==> c in a.variables {
      MonoColumns(a, cs[i]);
    }
  }

  ghost predicate AllKnown(a: Analysis, side: Bounds -> Option<Value>, e: Expression)
  {
    forall c :: c in Columns(e) ==> c in a.variables && side(a.variables[c]).Some?
  }

  ghost function LeftSide(): Bounds -> Option<Value> { (b: Bounds) => b.0 }

  ghost function RightSide(): Bounds -> Option<Value> { (b: Bounds) => b.1 }

  lemma BoundaryValue(a: Analysis, op: string, ends: seq<Option<Value>>, vs: seq<Value>)
    requires |ends| == |vs| && Boundary(a, op, ends).Ok?
    requires forall i :: 0 <= i < |ends| && ends[i].Some? ==> ends[i].value == vs[i]
    ensures Boundary(a, op, ends).value.Some? <==> forall i :: 0 <= i < |ends| ==> ends[i].Some?
    ensures Boundary(a, op, ends).value.Some? ==> Boundary(a, op, ends).value.value == a.semantics.apply(op, vs)
  {
    if forall i :: 0 <= i < |ends| ==> ends[i].Some? {
      assert seq(|ends|, i requires 0 <= i < |ends| => ends[i].value) == vs;
    }
  }

  /** The end `m` gives is known exactly when every variable in `e` has one, and then is `e`'s value there. */
  ghost predicate EndIs(a: Analysis, side: Bounds -> Option<Value>, row: Row, end: Option<Value>, e: Expression)
  {
    && (end.Some? <==> AllKnown(a, side, e))
    && (end.Some? ==> end.value == Eval(a.semantics, row, e))
  }

  lemma FunctionEnd(a: Analysis, side: Bounds -> Option<Value>, row: Row, e: Expression, ends: seq<Option<Value>>)
    requires IsFunction(e) && |ends| == |Children(e)| && Boundary(a, OpOf(e), ends).Ok?
    requires forall i :: 0 <= i < |ends| ==> EndIs(a, side, row, ends[i], Children(e)[i])
    ensures EndIs(a, side, row, Boundary(a, OpOf(e), ends).value, e)
  {
    var cs := Children(e);
    EvalUnfold(a.semantics, row, e);
    BoundaryValue(a, OpOf(e), ends, EvalAll(a.semantics, row, cs));
    assert AllKnown(a, side, e) <==> forall i :: 0 <= i < |cs| ==> AllKnown(a, side, cs[i]);
  }

  lemma LeafEnds(a: Analysis, e: Expression, row: Row)
    requires MonoOf(a, e).Ok? && !IsFunction(e)
    ensures EndIs(a, LeftSide(), Leftmost(a.variables, row), MonoOf(a, e).value.1.left, e)
    ensures EndIs(a, RightSide(), Rightmost(a.variables, row), MonoOf(a, e).value.1.right, e)
  {
    EvalUnfold(a.semantics, Leftmost(a.variables, row), e);
    EvalUnfold(a.semantics, Rightmost(a.variables, row), e);
  }

  /** Both ends of a successful answer are values of the expression. */
  ghost predicate EndsRight(a: Analysis, row: Row, m: Mono, e: Expression)
  {
    && EndIs(a, LeftSide(), Leftmost(a.variables, row), m.left, e)
    && EndIs(a, RightSide(), Rightmost(a.variables, row), m.right, e)
  }

  lemma FunctionEnds(a: Analysis, e: Expression, row: Row, items: seq<Item>)
    requires IsFunction(e) && |items| == |Children(e)| && FunctionMono(a, OpOf(e), items).Ok?
    requires forall i :: 0 <= i < |items| ==> EndsRight(a, row, items[i].1, Children(e)[i])
    ensures EndsRight(a, row, FunctionMono(a, OpOf(e), items).value.1, e)
  {
    FunctionEnd(a, LeftSide(), Leftmost(a.variables, row), e, Lefts(items));
    FunctionEnd(a, RightSide(), Rightmost(a.variables, row), e, Rights(items));
  }

  /** Both ends of a successful answer. */
  lemma {:induction false} EndsAreValues(a: Analysis, e: Expression, row: Row)
    requires MonoOf(a, e).Ok?
    ensures EndsRight(a, row, MonoOf(a, e).value.1, e)
    decreases e
  {
    if IsFunction(e) {
      var cs := Children(e);
      MonosOfElements(a, cs);
      var items := MonosOf(a, cs).value;
      forall i | 0 <= i < |cs|
        ensures EndsRight(a, row, items[i].1, cs[i])
      {
        EndsAreValues(a, cs[i], row);
      }
      FunctionEnds(a, e, row, items);
    } else {
      LeafEnds(a, e, row);
    }
  }

  lemma EndsComparable(leq: (Value, Value) -> bool, a: Analysis, p: Row)
    requires Preorder(leq) && !a.singlePoint && InRange(leq, a.variables, p)
    ensures Comparable(leq, a, Leftmost(a.variables, p), p)
    ensures Comparable(leq, a, p, Rightmost(a.variables, p))
  {
    var l, r := Leftmost(a.variables, p), Rightmost(a.variables, p);
    forall c | c in a.variables
      ensures a.variables[c].0.Some? ==> leq(a.variables[c].0.value, l(c)) && leq(a.variables[c].0.value, r(c))
      ensures a.variables[c].1.Some? ==> leq(l(c), a.variables[c].1.value) && leq(r(c), a.variables[c].1.value)
      ensures leq(l(c), p(c)) && leq(p(c), r(c))
    {
      assert leq(p(c), p(c));
    }
  }

  /** In every analysis whose functions answer soundly, the combined answer is sound. */
  lemma {:induction false} CheckIsSound(leq: (Value, Value) -> bool, a: Analysis, e: Expression, p: Row, q: Row)
    requires Preorder(leq) && Comparable(leq, a, p, q)
    requires forall op :: FunctionSound(leq, a, op)
    ensures Follows(leq, Checked(a, e), Eval(a.semantics, p, e), Eval(a.semantics, q, e))
    decreases e
  {
    if MonoOf(a, e).Ok? {
      if a.singlePoint {
        MonoColumns(a, e);
        EvalDependsOnColumns(a.semantics, p, q, e);
      } else {
        EvalUnfold(a.semantics, p, e);
        EvalUnfold(a.semantics, q, e);
        if IsFunction(e) {
          var cs, items := Children(e), MonosOf(a, Children(e)).value;
          MonosOfElements(a, cs);
          forall i | 0 <= i < |cs| ensures ArgumentMoves(leq, a, items[i].1, cs[i], p, q) {
            ChildMoves(leq, a, e, i, p, q);
          }
          FunctionMoves(leq, a, e, items, p, q);
        }
      }
    }
  }

  ghost predicate ArgumentMoves(leq: (Value, Value) -> bool, a: Analysis, m: Mono, c: Expression, p: Row, q: Row)
  {
    var u, v := Eval(a.semantics, p, c), Eval(a.semantics, q, c);
    Follows(leq, m, u, v) && Between(leq, m, u) && Between(leq, m, v)
  }

  lemma {:induction false} ChildMoves(leq: (Value, Value) -> bool, a: Analysis, e: Expression, i: nat, p: Row, q: Row)
    requires Preorder(leq) && Comparable(leq, a, p, q) && !a.singlePoint
    requires forall op :: FunctionSound(leq, a, op)
    requires i < |Children(e)| && MonoOf(a, Children(e)[i]).Ok?
    ensures ArgumentMoves(leq, a, MonoOf(a, Children(e)[i]).value.1, Children(e)[i], p, q)
    decreases e, 0
  {
    var c := Children(e)[i];
    CheckIsSound(leq, a, c, p, q);
    EndsComparable(leq, a, p);
    EndsComparable(leq, a, q);
    CheckIsSound(leq, a, c, Leftmost(a.variables, p), p);
    CheckIsSound(leq, a, c, p, Rightmost(a.variables, p));
    CheckIsSound(leq, a, c, Leftmost(a.variables, q), q);
    CheckIsSound(leq, a, c, q, Rightmost(a.variables, q));
    EndsAreValues(a, c, p);
    EndsAreValues(a, c, q);
  }

  lemma FunctionMoves(leq: (Value, Value) -> bool, a: Analysis, e: Expression, items: seq<Item>, p: Row, q: Row)
    requires IsFunction(e) && |items| == |Children(e)| && !a.singlePoint && FunctionSound(leq, a, OpOf(e))
    requires FunctionMono(a, OpOf(e), items).Ok?
    requires forall i :: 0 <= i < |items| ==> ArgumentMoves(leq, a, items[i].1, Children(e)[i], p, q)
    ensures Follows(leq, FunctionMono(a, OpOf(e), items).value.1, Eval(a.semantics, p, e), Eval(a.semantics, q, e))
  {
    var types := seq(|items|, i requires 0 <= i < |items| => items[i].0);
    var monos := seq(|items|, i requires 0 <= i < |items| => items[i].1);
    var us, vs := EvalAll(a.semantics, p, Children(e)), EvalAll(a.semantics, q, Children(e));
    assert ArgumentsMove(leq, monos, us, vs) by {
      forall i | 0 <= i < |monos|
        ensures Follows(leq, monos[i], us[i], vs[i])
        ensures Between(leq, monos[i], us[i]) && Between(leq, monos[i], vs[i])
      {
        assert ArgumentMoves(leq, a, items[i].1, Children(e)[i], p, q);
      }
    }
    EvalUnfold(a.semantics, p, e);
    EvalUnfold(a.semantics, q, e);
    assert a.functions.monotonicity(OpOf(e), types, monos).Ok?;
    assert Follows(leq, a.functions.monotonicity(OpOf(e), types, monos).value,
                   a.semantics.apply(OpOf(e), us), a.semantics.apply(OpOf(e), vs));
  }

  // ----- Sort keys -----

  /** `extract_sort_column`, of a sort expression. */
  function ExtractSortColumn(a: Analysis, sort: Expression, column: string): Result<Expression, PlanError>
  {
    if !sort.Sort? then Err(Unsupported)
    else
      var m := Checked(a, sort.origin);
      if !m.isMonotonic then Ok(sort)
      else Ok(Sort(Column(column), if m.isPositive then sort.asc else !sort.asc, sort.nullsFirst, sort.origin))
  }

  /** Two rows in the order a sort expression asks for. */
  ghost predicate InOrder(leq: (Value, Value) -> bool, s: Semantics, sort: Expression, p: Row, q: Row)
    requires sort.Sort?
  {
    if sort.asc then leq(Eval(s, p, sort.key), Eval(s, q, sort.key))
    else leq(Eval(s, q, sort.key), Eval(s, p, sort.key))
  }

  ghost predicate SortedBy(leq: (Value, Value) -> bool, s: Semantics, rows: seq<Row>, sort: Expression)
    requires sort.Sort?
  {
    forall i, j :: 0 <= i < j < |rows| ==> InOrder(leq, s, sort, rows[i], rows[j])
  }

  /** A sort expression analysed over one column. */
  datatype SortKey = SortKey(analysis: Analysis, sort: Expression, column: string)

  /** The key sorts by its origin, its functions answer soundly, and the row is in the range analysed. */
  ghost predicate Suits(leq: (Value, Value) -> bool, k: SortKey, row: Row)
  {
    && k.sort.Sort? && !k.analysis.singlePoint && k.analysis.variables.Keys == {k.column}
    && (forall op :: FunctionSound(leq, k.analysis, op))
    && InRange(leq, k.analysis.variables, row)
    && Eval(k.analysis.semantics, row, k.sort.key) == Eval(k.analysis.semantics, row, k.sort.origin)
  }

  function Extracted(k: SortKey): (x: Expression)
    requires k.sort.Sort?
    ensures x.Sort?
  {
    ExtractSortColumn(k.analysis, k.sort, k.column).value
  }

  /** Where every subexpression is answered and the answer is monotonic the column is extracted, and only there. */
  lemma ExtractedIff(k: SortKey)
    requires k.sort.Sort?
    ensures var known := Everywhere(AnsweredIn(k.analysis), k.sort.origin)
                      && Checked(k.analysis, k.sort.origin).isMonotonic;
            if known then Extracted(k).key == Column(k.column) && Extracted(k).origin == k.sort.origin
            else Extracted(k) == k.sort
  {
    AnsweredIff(k.analysis, k.sort.origin);
  }

  /** Rows in the order of the extracted key are in the order of the original one. */
  lemma ExtractedOrderIsRight(leq: (Value, Value) -> bool, k: SortKey, p: Row, q: Row)
    requires Preorder(leq) && Suits(leq, k, p) && Suits(leq, k, q)
    requires InOrder(leq, k.analysis.semantics, Extracted(k), p, q)
    ensures InOrder(leq, k.analysis.semantics, k.sort, p, q)
  {
    var a, s, x := k.analysis, k.analysis.semantics, Extracted(k);
    if Checked(a, k.sort.origin).isMonotonic {
      EvalUnfold(s, p, x.key);
      EvalUnfold(s, q, x.key);
      if x.asc {
        CheckIsSound(leq, a, k.sort.origin, p, q);
      } else {
        CheckIsSound(leq, a, k.sort.origin, q, p);
      }
    }
  }

  /** The same where values may be null: nulls come first or last as asked, whatever the direction. */
  ghost predicate InOrderWithNulls(leq: (Value, Value) -> bool, isNull: Value -> bool, s: Semantics, sort: Expression,
                                   p: Row, q: Row)
    requires sort.Sort?
  {
    var u, v := Eval(s, p, sort.key), Eval(s, q, sort.key);
    if isNull(u) || isNull(v) then (isNull(u) && isNull(v)) || (isNull(u) <==> sort.nullsFirst)
    else InOrder(leq, s, sort, p, q)
  }

  /** The sort expression is null just where the column is. */
  ghost predicate NullsAgree(isNull: Value -> bool, k: SortKey, row: Row)
    requires k.sort.Sort?
  {
    && Eval(k.analysis.semantics, row, k.sort.key) == Eval(k.analysis.semantics, row, k.sort.origin)
    && (isNull(row(k.column)) <==> isNull(Eval(k.analysis.semantics, row, k.sort.origin)))
  }

  /** With nulls that agree, rows in the order of the extracted key are in the order of the original one, nulls too. */
  lemma ExtractedPlacesNulls(leq: (Value, Value) -> bool, isNull: Value -> bool, k: SortKey, p: Row, q: Row)
    requires Preorder(leq) && k.sort.Sort? && NullsAgree(isNull, k, p) && NullsAgree(isNull, k, q)
    requires !isNull(p(k.column)) ==> Suits(leq, k, p)
    requires !isNull(q(k.column)) ==> Suits(leq, k, q)
    requires InOrderWithNulls(leq, isNull, k.analysis.semantics, Extracted(k), p, q)
    ensures InOrderWithNulls(leq, isNull, k.analysis.semantics, k.sort, p, q)
  {
    var s, x := k.analysis.semantics, Extracted(k);
    EvalUnfold(s, p, Column(k.column));
    EvalUnfold(s, q, Column(k.column));
    if !isNull(p(k.column)) && !isNull(q(k.column)) {
      ExtractedOrderIsRight(leq, k, p, q);
    }
  }

  /** Sorting by the extracted column sorts by the original expression, in the original direction. */
  lemma ExtractedSortIsRight(leq: (Value, Value) -> bool, k: SortKey, rows: seq<Row>)
    requires Preorder(leq) && k.sort.Sort? && forall i :: 0 <= i < |rows| ==> Suits(leq, k, rows[i])
    requires SortedBy(leq, k.analysis.semantics, rows, Extracted(k))
    ensures SortedBy(leq, k.analysis.semantics, rows, k.sort)
  {
    forall i, j | 0 <= i < j < |rows|
      ensures InOrder(leq, k.analysis.semantics, k.sort, rows[i], rows[j])
    {
      ExtractedOrderIsRight(leq, k, rows[i], rows[j]);
    }
  }
}
