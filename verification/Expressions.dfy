/**
  The planner's expressions and plans (common/planners/src/plan_expression.rs,
  plan_node.rs), their column names and their meaning on a row.

  Data values, data types and run-time values are opaque types; functions, casts, aggregates
  and text formatting are fields of records over which every theorem quantifies.
 */
module Expressions {
  import opened Wrappers

  type DataValue(==, !new)
  type DataType(==, !new)

  /** Run-time values. */
  type Value(==, !new, 00)

  datatype Field = Field(name: string, dataType: DataType)
  type Schema = seq<Field>

  datatype Expression =
    | Alias(alias: string, aliased: Expression)
    | Column(column: string)
    | QualifiedColumn(names: seq<string>)
    | Literal(value: DataValue, literalName: Option<string>, literalType: DataType)
    | Unary(unaryOp: string, operand: Expression)
    | Binary(binaryOp: string, left: Expression, right: Expression)
    | ScalarFunction(op: string, args: seq<Expression>)
    | AggregateFunction(aggregate: string, distinct: bool, params: seq<DataValue>, aggregateArgs: seq<Expression>)
    | Sort(key: Expression, asc: bool, nullsFirst: bool, origin: Expression)
    | Wildcard
    | Cast(source: Expression, castType: DataType, pgStyle: bool)
    | ScalarSubquery(scalarName: string, scalarPlan: Plan)
    | Subquery(subqueryName: string, subqueryPlan: Plan)
    | MapAccess(accessName: string, accessArgs: seq<Expression>)

  datatype Plan =
    | Empty(emptySchema: Schema)
    | ReadSource(sourceSchema: Schema, table: string)
    | Remote(remoteSchema: Schema, fetch: string)
    | Stage(kind: string, scatters: Expression, stageInput: Plan)
    | Broadcast(broadcastInput: Plan)
    | Projection(projections: seq<Expression>, projectionSchema: Schema, projectionInput: Plan)
    | ExpressionPlan(exprs: seq<Expression>, exprSchema: Schema, exprInput: Plan, desc: string)
    | Filter(filterPredicate: Expression, filterSchema: Schema, filterInput: Plan)
    | Having(havingPredicate: Expression, havingSchema: Schema, havingInput: Plan)
    | SortPlan(orderBy: seq<Expression>, sortSchema: Schema, sortInput: Plan)
    | Limit(n: Option<nat>, offset: nat, limitInput: Plan)
    | LimitBy(limit: nat, limitByInput: Plan, limitBy: seq<Expression>)
    | SubqueriesSet(subqueries: seq<Expression>, setInput: Plan)
    | Select(selectInput: Plan)
    | Explain(explainType: string, explainInput: Plan)
    | AggregatorPartial(partialAggr: seq<Expression>, partialGroup: seq<Expression>, partialSchema: Schema,
                        partialInput: Plan)
    | AggregatorFinal(finalAggr: seq<Expression>, finalGroup: seq<Expression>, finalSchema: Schema,
                      beforeGroupBy: Schema, finalInput: Plan)

  /** The children the visitor and `expression_plan_children` walk; a sort's origin is not one. */
  function Children(e: Expression): (cs: seq<Expression>)
    ensures forall i :: 0 <= i < |cs| ==> cs[i] < e
  {
    match e
    case Alias(_, c) => [c]
    case Unary(_, c) => [c]
    case Binary(_, l, r) => [l, r]
    case ScalarFunction(_, args) => args
    case AggregateFunction(_, _, _, args) => args
    case Sort(c, _, _, _) => [c]
    case Cast(c, _, _) => [c]
    case MapAccess(_, args) => args
    case _ => []
  }

  /** The same node over other children. */
  function WithChildren(e: Expression, cs: seq<Expression>): (r: Expression)
    requires |cs| == |Children(e)|
    ensures Children(r) == cs
    ensures cs == Children(e) ==> r == e
  {
    match e
    case Alias(a, _) => Alias(a, cs[0])
    case Unary(op, _) => Unary(op, cs[0])
    case Binary(op, _, _) => assert cs == [cs[0], cs[1]]; Binary(op, cs[0], cs[1])
    case ScalarFunction(op, _) => ScalarFunction(op, cs)
    case AggregateFunction(op, d, ps, _) => AggregateFunction(op, d, ps, cs)
    case Sort(_, asc, nf, o) => Sort(cs[0], asc, nf, o)
    case Cast(_, t, pg) => Cast(cs[0], t, pg)
    case MapAccess(n, _) => MapAccess(n, cs)
    case _ => e
  }

  function Sum(ns: seq<nat>): nat
  {
    if ns == [] then 0 else Sum(ns[..|ns| - 1]) + ns[|ns| - 1]
  }

  function Size(e: Expression): (n: nat)
    ensures n > 0
  {
    var cs := Children(e);
    1 + Sum(seq(|cs|, i requires 0 <= i < |cs| => Size(cs[i])))
  }

  /** The termination measure of every walk over a list of children. */
  function SizeAll(es: seq<Expression>): (n: nat)
    ensures es != [] ==> n == SizeAll(es[..|es| - 1]) + Size(es[|es| - 1])
  {
    var sizes := seq(|es|, i requires 0 <= i < |es| => Size(es[i]));
    assert es != [] ==> sizes[..|es| - 1] == seq(|es| - 1, i requires 0 <= i < |es| - 1 => Size(es[..|es| - 1][i]));
    Sum(sizes)
  }

  lemma {:induction false} SumMember(ns: seq<nat>, i: nat)
    requires i < |ns|
    ensures ns[i] <= Sum(ns)
  {
    if i < |ns| - 1 {
      SumMember(ns[..|ns| - 1], i);
    }
  }

  lemma MemberSize(es: seq<Expression>, i: nat)
    requires i < |es|
    ensures Size(es[i]) <= SizeAll(es)
  {
    SumMember(seq(|es|, j requires 0 <= j < |es| => Size(es[j])), i);
  }

  datatype PlanError =
    | StackUnderflow
    | TooManyElements
    | UnresolvedColumn
    | IllegalDataType
    | UnknownColumn(column: string)
    | WrongArgumentCount(op: string)
    | NotMonotonic(op: string)
    | Unsupported
    | Library(text: string)

  function FromFactory<T>(r: Result<T, string>): Result<T, PlanError>
  {
    match r case Ok(t) => Ok(t) case Err(text) => Err(Library(text))
  }

  // ----- Column names -----

  /** The text formatting that `column_name` delegates to, over the node and its arguments' names. */
  datatype Format = Format(
    literal: DataValue -> string,
    render: (Expression, seq<string>) -> string)

  function ColumnName(f: Format, e: Expression): string
    decreases e
  {
    match e
    case Alias(name, _) => name
    case Column(name) => name
    case Literal(_, Some(name), _) => name
    case Literal(v, None, _) => f.literal(v)
    case Sort(c, _, _, _) => ColumnName(f, c)
    case Subquery(name, _) => name
    case ScalarSubquery(name, _) => name
    case MapAccess(name, _) => name
    case _ =>
      var cs := Children(e);
      f.render(e, seq(|cs|, i requires 0 <= i < |cs| => ColumnName(f, cs[i])))
  }

  // ----- Meaning -----

  datatype Semantics = Semantics(
    literal: (DataValue, DataType) -> Value,
    apply: (string, seq<Value>) -> Value,
    cast: (DataType, Value) -> Value,
    aggregate: (string, bool, seq<DataValue>, seq<Value>) -> Value,
    subquery: (string, Plan) -> Value,
    qualified: seq<string> -> Value,
    wildcard: Value)

  type Row = string -> Value

  /** One node applied to its children's values. */
  function Apply(s: Semantics, row: Row, e: Expression, vs: seq<Value>): Value
    requires |vs| == |Children(e)|
  {
    match e
    case Column(c) => row(c)
    case QualifiedColumn(ns) => s.qualified(ns)
    case Literal(v, _, t) => s.literal(v, t)
    case Wildcard => s.wildcard
    case Subquery(n, p) => s.subquery(n, p)
    case ScalarSubquery(n, p) => s.subquery(n, p)
    case Alias(_, _) => vs[0]
    case Sort(_, _, _, _) => vs[0]
    case Cast(_, t, _) => s.cast(t, vs[0])
    case Unary(op, _) => s.apply(op, vs)
    case Binary(op, _, _) => s.apply(op, vs)
    case ScalarFunction(op, _) => s.apply(op, vs)
    case MapAccess(_, _) => s.apply("get", vs)
    case AggregateFunction(op, d, ps, _) => s.aggregate(op, d, ps, vs)
  }

  function Eval(s: Semantics, row: Row, e: Expression): Value
    decreases e, 0
  {
    var cs := Children(e);
    Apply(s, row, e, seq(|cs|, i requires 0 <= i < |cs| => Eval(s, row, cs[i])))
  }

  function EvalAll(s: Semantics, row: Row, es: seq<Expression>): (vs: seq<Value>)
    ensures |vs| == |es|
    ensures forall i :: 0 <= i < |es| ==> vs[i] == Eval(s, row, es[i])
  {
    seq(|es|, i requires 0 <= i < |es| => Eval(s, row, es[i]))
  }

  lemma EvalUnfold(s: Semantics, row: Row, e: Expression)
    ensures Eval(s, row, e) == Apply(s, row, e, EvalAll(s, row, Children(e)))
  {
    var cs := Children(e);
    assert seq(|cs|, i requires 0 <= i < |cs| => Eval(s, row, cs[i])) == EvalAll(s, row, cs);
  }

  /** Rebuilding a node other than a column over children with the same values keeps its value. */
  lemma EvalWithChildren(s: Semantics, row: Row, row': Row, e: Expression, cs: seq<Expression>)
    requires |cs| == |Children(e)|
    requires EvalAll(s, row', cs) == EvalAll(s, row, Children(e))
    requires e.Column? ==> row'(e.column) == row(e.column)
    ensures Eval(s, row', WithChildren(e, cs)) == Eval(s, row, e)
  {
    EvalUnfold(s, row, e);
    EvalUnfold(s, row', WithChildren(e, cs));
  }

  // ----- Subexpressions -----

  /** `x` is `e` or a subexpression of it, along `Children`. */
  ghost predicate Below(x: Expression, e: Expression)
    decreases e
  {
    x == e || exists i :: 0 <= i < |Children(e)| && Below(x, Children(e)[i])
  }

  /** The predicate holds of every subexpression. */
  ghost predicate Everywhere(p: Expression -> bool, e: Expression)
  {
    forall x :: Below(x, e) ==> p(x)
  }

  lemma EverywhereUnfold(p: Expression -> bool, e: Expression)
    ensures Everywhere(p, e) <==> p(e) && forall i :: 0 <= i < |Children(e)| ==> Everywhere(p, Children(e)[i])
  {
    var cs := Children(e);
    assert Below(e, e);
    if Everywhere(p, e) {
      forall i, x | 0 <= i < |cs| && Below(x, cs[i])
        ensures p(x)
      {
        assert Below(x, e);
      }
    }
  }

  // ----- Columns -----

  /** The columns under an expression, along `Children`. */
  ghost function Columns(e: Expression): set<string>
  {
    match e
    case Column(c) => {c}
    case _ => set c, i | 0 <= i < |Children(e)| && c in Columns(Children(e)[i]) :: c
  }

  lemma {:induction false} EvalDependsOnColumns(s: Semantics, r1: Row, r2: Row, e: Expression)
    requires forall c :: c in Columns(e) ==> r1(c) == r2(c)
    ensures Eval(s, r1, e) == Eval(s, r2, e)
  {
    var cs := Children(e);
    forall i | 0 <= i < |cs| ensures Eval(s, r1, cs[i]) == Eval(s, r2, cs[i]) {
      assert forall c :: c in Columns(cs[i]) ==> c in Columns(e);
      EvalDependsOnColumns(s, r1, r2, cs[i]);
    }
    assert EvalAll(s, r1, cs) == EvalAll(s, r2, cs);
    EvalUnfold(s, r1, e);
    EvalUnfold(s, r2, e);
  }
}
