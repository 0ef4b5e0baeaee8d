/**
  Return types of expressions: `ExpressionDataTypeVisitor` and `to_data_type`
  (common/planners/src/plan_expression_common.rs, plan_expression.rs) and plan schemas.
 */
module DataTypes {
  import opened Wrappers
  import opened Expressions
  import opened Visitor
  import opened StackVisitors

  datatype Features = Features(variadic: Option<(nat, nat)>, numArguments: nat)

  /** Lookups in the function factories and the type constructors, all left open. */
  datatype Factory = Factory(
    features: string -> Result<Features, string>,
    returnType: (string, seq<DataType>) -> Result<DataType, string>,
    aggregateType: (string, bool, seq<DataValue>, seq<Field>) -> Result<DataType, string>,
    arrayOf: DataType -> DataType,
    structOf: (seq<string>, seq<DataType>) -> DataType,
    text: DataType)

  function FindField(schema: Schema, name: string): Result<DataType, PlanError>
  {
    if schema == [] then Err(UnknownColumn(name))
    else if schema[0].name == name then Ok(schema[0].dataType)
    else FindField(schema[1..], name)
  }

  function ValidateArguments(op: string, n: nat, f: Features): Result<(), PlanError>
  {
    match f.variadic
    case Some((lo, hi)) => if n < lo || n > hi then Err(WrongArgumentCount(op)) else Ok(())
    case None => if f.numArguments != n then Err(WrongArgumentCount(op)) else Ok(())
  }

  function FunctionType(l: Factory, op: string, ts: seq<DataType>): Result<DataType, PlanError>
  {
    var features :- FromFactory(l.features(op));
    var _ :- ValidateArguments(op, |ts|, features);
    FromFactory(l.returnType(op, ts))
  }

  // ----- Plan schemas -----

  /** `to_subquery_type`: an array per column, as a struct unless there is exactly one. */
  function SubqueryType(l: Factory, schema: Schema): DataType
  {
    if |schema| == 1 then l.arrayOf(schema[0].dataType)
    else l.structOf(seq(|schema|, i requires 0 <= i < |schema| => schema[i].name),
                    seq(|schema|, i requires 0 <= i < |schema| => l.arrayOf(schema[i].dataType)))
  }

  function ScalarSubqueryType(l: Factory, schema: Schema): DataType
  {
    if |schema| == 1 then schema[0].dataType
    else l.structOf(seq(|schema|, i requires 0 <= i < |schema| => schema[i].name),
                    seq(|schema|, i requires 0 <= i < |schema| => schema[i].dataType))
  }

  function PlanSchema(l: Factory, p: Plan): Schema
    decreases p
  {
    match p
    case Empty(s) => s
    case ReadSource(s, _) => s
    case Remote(s, _) => s
    case Stage(_, _, input) => PlanSchema(l, input)
    case Broadcast(input) => PlanSchema(l, input)
    case Projection(_, s, _) => s
    case ExpressionPlan(_, s, _, _) => s
    case Filter(_, s, _) => s
    case Having(_, s, _) => s
    case SortPlan(_, s, _) => s
    case Limit(_, _, input) => PlanSchema(l, input)
    case LimitBy(_, input, _) => PlanSchema(l, input)
    case SubqueriesSet(subs, input) =>
      PlanSchema(l, input) + seq(|subs|, i requires 0 <= i < |subs| => SubqueryField(l, subs[i]))
    case Select(input) => PlanSchema(l, input)
    case Explain(_, _) => [Field("explain", l.text)]
    case AggregatorPartial(_, _, s, _) => s
    case AggregatorFinal(_, _, s, _, _) => s
  }

  /** The column a subquery set adds; the source panics on any other expression. */
  function SubqueryField(l: Factory, e: Expression): Field
    decreases e
  {
    match e
    case Subquery(n, p) => Field(n, SubqueryType(l, PlanSchema(l, p)))
    case ScalarSubquery(n, p) => Field(n, ScalarSubqueryType(l, PlanSchema(l, p)))
    case _ => Field("", l.text)
  }

  // ----- The type of an expression -----

  /** Naming, factory and input schema of one inference. */
  datatype Context = Context(format: Format, factory: Factory, schema: Schema)

  function NamedFields(c: Context, es: seq<Expression>, ts: seq<DataType>): seq<Field>
    requires |ts| == |es|
  {
    seq(|es|, i requires 0 <= i < |es| => Field(ColumnName(c.format, es[i]), ts[i]))
  }

  /** A node's type from its arguments' types. */
  function NodeType(c: Context, e: Expression, ts: seq<DataType>): Result<DataType, PlanError>
    requires |ts| == |Children(e)|
  {
    match e
    case Column(name) => FindField(c.schema, name)
    case Wildcard => Err(IllegalDataType)
    case QualifiedColumn(_) => Err(UnresolvedColumn)
    case Literal(_, _, t) => Ok(t)
    case Subquery(_, p) => Ok(SubqueryType(c.factory, PlanSchema(c.factory, p)))
    case ScalarSubquery(_, p) => Ok(SubqueryType(c.factory, PlanSchema(c.factory, p)))
    case Unary(op, _) => FunctionType(c.factory, op, ts)
    case Binary(op, _, _) => FunctionType(c.factory, op, ts)
    case ScalarFunction(op, _) => FunctionType(c.factory, op, ts)
    case MapAccess(_, _) => FunctionType(c.factory, "get", ts)
    case AggregateFunction(op, d, ps, args) =>
      FromFactory(c.factory.aggregateType(op, d, ps, NamedFields(c, args, ts)))
    case Cast(_, t, _) => Ok(t)
    case Alias(_, _) => Ok(ts[0])
    case Sort(_, _, _, _) => Ok(ts[0])
  }

  function TypeOf(c: Context, e: Expression): Result<DataType, PlanError>
    decreases Size(e), 0
  {
    var ts :- TypesOf(c, Children(e));
    NodeType(c, e, ts)
  }

  /** The types of a list; the last erroneous element decides the error. */
  function TypesOf(c: Context, es: seq<Expression>): (r: Result<seq<DataType>, PlanError>)
    ensures r.Ok? ==> |r.value| == |es|
    decreases SizeAll(es), 1
  {
    if es == [] then Ok([])
    else
      var t :- TypeOf(c, es[|es| - 1]);
      var ts :- TypesOf(c, es[..|es| - 1]);
      Ok(ts + [t])
  }

  lemma {:induction false} TypesOfElement(c: Context, es: seq<Expression>, i: nat)
    requires TypesOf(c, es).Ok? && i < |es|
    ensures TypeOf(c, es[i]) == Ok(TypesOf(c, es).value[i])
    decreases |es|
  {
    if i < |es| - 1 {
      TypesOfElement(c, es[..|es| - 1], i);
    }
  }

  lemma TypesOfElements(c: Context, es: seq<Expression>)
    requires TypesOf(c, es).Ok?
    ensures forall i :: 0 <= i < |es| ==> TypeOf(c, es[i]) == Ok(TypesOf(c, es).value[i])
  {
    forall i | 0 <= i < |es|
      ensures TypeOf(c, es[i]) == Ok(TypesOf(c, es).value[i])
    {
      TypesOfElement(c, es, i);
    }
  }

  // ----- The visitor -----

  /** The visitor's input schema, with the factory and naming, and its stack. */
  type TypeState = State<Context, DataType>

  /** `to_data_field` of each argument, first to last. */
  function FieldsOf(c: Context, es: seq<Expression>): Result<seq<Field>, PlanError>
  {
    if es == [] then Ok([])
    else
      var t :- TypeOf(c, es[0]);
      var fs :- FieldsOf(c, es[1..]);
      Ok([Field(ColumnName(c.format, es[0]), t)] + fs)
  }

  function VisitFunction(s: TypeState, op: string, n: nat): Result<TypeState, PlanError>
  {
    var c := s.inner;
    var features :- FromFactory(c.factory.features(op));
    var _ :- ValidateArguments(op, n, features);
    match Pop(s.stack, n)
    case Underflow => Err(StackUnderflow)
    case Arguments(ts, rest) =>
      var t :- FromFactory(c.factory.returnType(op, ts));
      Ok(State(c, rest + [t]))
  }

  /** `visit_function`, which pops its arguments one by one. */
  method VisitFunctionLoop(s: TypeState, op: string, n: nat) returns (r: Result<TypeState, PlanError>)
    ensures r == VisitFunction(s, op, n)
  {
    var features := FromFactory(s.inner.factory.features(op));
    if features.Err? { return Err(features.error); }
    var valid := ValidateArguments(op, n, features.value);
    if valid.Err? { return Err(valid.error); }
    var popped := PopArguments(s.stack, n);
    if popped.Underflow? { return Err(StackUnderflow); }
    var t := FromFactory(s.inner.factory.returnType(op, popped.args));
    r := if t.Ok? then Ok(State(s.inner, popped.rest + [t.value])) else Err(t.error);
  }

  /** `post_visit`; the nested `to_data_type` of an aggregate's arguments is `TypeOf`. */
  function PostVisit(s: TypeState, e: Expression): Result<TypeState, PlanError>
  {
    var c := s.inner;
    match e
    case Column(name) =>
      var t :- FindField(c.schema, name);
      Ok(State(c, s.stack + [t]))
    case Wildcard => Err(IllegalDataType)
    case QualifiedColumn(_) => Err(UnresolvedColumn)
    case Literal(_, _, t) => Ok(State(c, s.stack + [t]))
    case Subquery(_, p) => Ok(State(c, s.stack + [SubqueryType(c.factory, PlanSchema(c.factory, p))]))
    case ScalarSubquery(_, p) => Ok(State(c, s.stack + [SubqueryType(c.factory, PlanSchema(c.factory, p))]))
    case Binary(op, _, _) => VisitFunction(s, op, 2)
    case Unary(op, _) => VisitFunction(s, op, 1)
    case ScalarFunction(op, args) => VisitFunction(s, op, |args|)
    case AggregateFunction(op, d, ps, args) =>
      (match Pop(s.stack, |args|)
       case Underflow => Err(StackUnderflow)
       case Arguments(_, rest) =>
         var fields :- FieldsOf(c, args);
         var t :- FromFactory(c.factory.aggregateType(op, d, ps, fields));
         Ok(State(c, rest + [t])))
    case Cast(_, t, _) =>
      if s.stack == [] then Err(StackUnderflow) else Ok(State(c, s.stack[..|s.stack| - 1] + [t]))
    case MapAccess(_, args) => VisitFunction(s, "get", |args|)
    case Alias(_, _) => Ok(s)
    case Sort(_, _, _, _) => Ok(s)
  }

  function TypeVisitor(): Visitor<TypeState, PlanError>
  {
    Visitor((s: TypeState, e: Expression) => Ok(Continue(s)),
            (s: TypeState, e: Expression) => PostVisit(s, e))
  }

  function Finalize<T, X>(s: State<T, X>): Result<X, PlanError>
  {
    if |s.stack| == 1 then Ok(s.stack[0]) else Err(TooManyElements)
  }

  /** `Expression::to_data_type`. */
  method ToDataType(c: Context, e: Expression) returns (r: Result<DataType, PlanError>)
    ensures r == TypeOf(c, e)
    ensures r != Err(StackUnderflow) && r != Err(TooManyElements)
  {
    var w := Visit(TypeVisitor(), State(c, []), e);
    TypeWalk(c, e);
    TypeErrors(c, e);
    if w.Err? { return Err(w.error); }
    r := Finalize(w.value);
  }

  // ----- Stack discipline -----

  /** What the visitor does to the arguments it finds; aggregates recompute theirs. */
  function TypeHooks(): Hooks<Context, DataType, PlanError>
  {
    Hooks((c: Context, e: Expression) => Ok((c, true)),
          (c: Context, e: Expression, ts: seq<DataType>) =>
            if |ts| != |Children(e)| then Err(StackUnderflow)
            else match CombineTypes(c, e, ts) case Ok(r) => Ok((c, r)) case Err(x) => Err(x))
  }

  function CombineTypes(c: Context, e: Expression, ts: seq<DataType>): Result<DataType, PlanError>
    requires |ts| == |Children(e)|
  {
    match e
    case AggregateFunction(op, d, ps, args) =>
      var fields :- FieldsOf(c, args);
      FromFactory(c.factory.aggregateType(op, d, ps, fields))
    case _ => NodeType(c, e, ts)
  }

  function Pushed1(c: Context, stack: seq<DataType>, r: Result<DataType, PlanError>): Result<TypeState, PlanError>
  {
    match r case Ok(t) => Ok(State(c, stack + [t])) case Err(x) => Err(x)
  }

  lemma VisitFunctionPops(c: Context, stack: seq<DataType>, op: string, ts: seq<DataType>)
    ensures VisitFunction(State(c, stack + Reverse(ts)), op, |ts|) == Pushed1(c, stack, FunctionType(c.factory, op, ts))
  {
    PopPushed(stack, ts);
  }

  lemma TopIs(stack: seq<DataType>, ts: seq<DataType>)
    ensures ts == [] ==> stack + Reverse(ts) == stack
    ensures |ts| == 1 ==> stack + Reverse(ts) == stack + [ts[0]] && (stack + [ts[0]])[..|stack|] == stack
  {
  }

  lemma PostVisitPops(c: Context, stack: seq<DataType>, e: Expression, ts: seq<DataType>)
    requires |ts| == |Children(e)|
    ensures PostVisit(State(c, stack + Reverse(ts)), e) == Pushed1(c, stack, CombineTypes(c, e, ts))
  {
    if e.Unary? {
      VisitFunctionPops(c, stack, e.unaryOp, ts);
    } else if e.Binary? {
      VisitFunctionPops(c, stack, e.binaryOp, ts);
    } else if e.ScalarFunction? {
      VisitFunctionPops(c, stack, e.op, ts);
    } else if e.MapAccess? {
      VisitFunctionPops(c, stack, "get", ts);
    } else if e.AggregateFunction? {
      PopPushed(stack, ts);
    } else {
      OtherPops(c, stack, e, ts);
    }
  }

  /** Leaves, casts, and the nodes that keep their child's type. */
  lemma OtherPops(c: Context, stack: seq<DataType>, e: Expression, ts: seq<DataType>)
    requires |ts| == |Children(e)|
    requires !e.Unary? && !e.Binary? && !e.ScalarFunction? && !e.MapAccess? && !e.AggregateFunction?
    ensures PostVisit(State(c, stack + Reverse(ts)), e) == Pushed1(c, stack, CombineTypes(c, e, ts))
  {
    TopIs(stack, ts);
  }

  lemma TypeVisitorImplements()
    ensures Implements(TypeVisitor(), TypeHooks())
  {
    var v, h := TypeVisitor(), TypeHooks();
    forall c, stack, e, ts | |ts| == |Children(e)| ensures PostMatches(v, h, c, stack, e, ts) {
      PostVisitPops(c, stack, e, ts);
    }
  }

  lemma NamedFieldsCons(c: Context, es: seq<Expression>, ts: seq<DataType>)
    requires |ts| == |es| && es != []
    ensures NamedFields(c, es, ts) == [Field(ColumnName(c.format, es[0]), ts[0])] + NamedFields(c, es[1..], ts[1..])
  {
  }

  lemma FieldsOfCons(c: Context, es: seq<Expression>, t: DataType, fs: seq<Field>)
    requires es != [] && TypeOf(c, es[0]) == Ok(t) && FieldsOf(c, es[1..]) == Ok(fs)
    ensures FieldsOf(c, es) == Ok([Field(ColumnName(c.format, es[0]), t)] + fs)
  {
  }

  lemma {:induction false} FieldsOfTypes(c: Context, es: seq<Expression>, ts: seq<DataType>)
    requires |ts| == |es| && forall i :: 0 <= i < |es| ==> TypeOf(c, es[i]) == Ok(ts[i])
    ensures FieldsOf(c, es) == Ok(NamedFields(c, es, ts))
    decreases |es|
  {
    if es != [] {
      FieldsOfTypes(c, es[1..], ts[1..]);
      NamedFieldsCons(c, es, ts);
      FieldsOfCons(c, es, ts[0], NamedFields(c, es[1..], ts[1..]));
    } else {
      assert NamedFields(c, es, ts) == [];
    }
  }

  lemma {:induction false} FoldIsTypeOf(c: Context, e: Expression)
    ensures Fold(TypeHooks(), c, e) == match TypeOf(c, e) case Ok(t) => Ok((c, t)) case Err(x) => Err(x)
    decreases Size(e), 0
  {
    var cs := Children(e);
    FoldAllIsTypesOf(c, cs);
    var r := TypesOf(c, cs);
    if r.Ok? && e.AggregateFunction? {
      TypesOfElements(c, cs);
      FieldsOfTypes(c, cs, r.value);
    }
  }

  lemma {:induction false} FoldAllIsTypesOf(c: Context, es: seq<Expression>)
    ensures FoldAll(TypeHooks(), c, es) == match TypesOf(c, es) case Ok(ts) => Ok((c, ts)) case Err(x) => Err(x)
    decreases SizeAll(es), 1
  {
    if es != [] {
      FoldIsTypeOf(c, es[|es| - 1]);
      FoldAllIsTypesOf(c, es[..|es| - 1]);
    }
  }

  /** The visit ends with exactly the expression's type on the stack, or with its error. */
  lemma TypeWalk(c: Context, e: Expression)
    ensures Walk(TypeVisitor(), State(c, []), e) ==
            match TypeOf(c, e) case Ok(t) => Ok(State(c, [t])) case Err(x) => Err(x)
  {
    TypeVisitorImplements();
    WalkIsFold(TypeVisitor(), TypeHooks(), c, [], e);
    FoldIsTypeOf(c, e);
    assert forall t: DataType :: [] + [t] == [t];
  }

  lemma NodeErrors(c: Context, e: Expression, ts: seq<DataType>)
    requires |ts| == |Children(e)|
    ensures NodeType(c, e, ts) != Err(StackUnderflow) && NodeType(c, e, ts) != Err(TooManyElements)
  {
    if e.Column? { FieldErrors(c.schema, e.column); }
  }

  lemma {:induction false} TypeErrors(c: Context, e: Expression)
    ensures TypeOf(c, e) != Err(StackUnderflow) && TypeOf(c, e) != Err(TooManyElements)
    decreases Size(e), 0
  {
    var ts := TypesOf(c, Children(e));
    TypesErrors(c, Children(e));
    if ts.Ok? {
      NodeErrors(c, e, ts.value);
    }
  }

  lemma {:induction false} TypesErrors(c: Context, es: seq<Expression>)
    ensures TypesOf(c, es) != Err(StackUnderflow) && TypesOf(c, es) != Err(TooManyElements)
    decreases SizeAll(es), 1
  {
    if es != [] {
      TypeErrors(c, es[|es| - 1]);
      TypesErrors(c, es[..|es| - 1]);
    }
  }

  lemma FieldErrors(schema: Schema, name: string)
    ensures FindField(schema, name).Err? ==> FindField(schema, name).error == UnknownColumn(name)
  {
  }
}
