/**
  `PlanBuilder` (common/planners/src/plan_node_builder.rs) and the query plans that its steps build.
 */
module Plans {
  import opened Wrappers
  import opened Expressions
  import opened Visitor
  import opened DataTypes

  // ----- Subqueries -----

  /** The outermost subqueries of an expression, left to right. */
  function Subqueries(e: Expression): seq<Expression>
    decreases Size(e), 0
  {
    if e.Subquery? || e.ScalarSubquery? then [e] else SubqueriesOf(Children(e))
  }

  function SubqueriesOf(es: seq<Expression>): seq<Expression>
    decreases SizeAll(es), 1
  {
    if es == [] then [] else SubqueriesOf(es[..|es| - 1]) + Subqueries(es[|es| - 1])
  }

  /** `collect_expr_sub_queries`. */
  method CollectExprSubqueries(e: Expression, res: seq<Expression>) returns (all: seq<Expression>)
    ensures all == res + Subqueries(e)
    decreases Size(e), 0
  {
    if e.Subquery? || e.ScalarSubquery? { return res + [e]; }
    var more := CollectExprsSubqueries(Children(e));
    all := res + more;
  }

  /** `collect_exprs_sub_queries`. */
  method CollectExprsSubqueries(es: seq<Expression>) returns (res: seq<Expression>)
    ensures res == SubqueriesOf(es)
    decreases SizeAll(es), 1
  {
    res := [];
    for i := 0 to |es|
      invariant res == SubqueriesOf(es[..i])
    {
      MemberSize(es, i);
      assert es[..i + 1][..i] == es[..i];
      res := CollectExprSubqueries(es[i], res);
    }
    assert es[..|es|] == es;
  }

  // ----- The builder -----

  /** Besides names and types: the type of aggregate states, and of the key a hash method makes of columns. */
  datatype Builder = Builder(
    format: Format, factory: Factory, stateType: DataType, keyType: (Schema, seq<string>) -> Result<DataType, string>)

  function ContextOf(b: Builder, input: Plan): Context
  {
    Context(b.format, b.factory, PlanSchema(b.factory, input))
  }

  /** `wrap_subquery_plan`. */
  function Wrap(input: Plan, es: seq<Expression>): Plan
  {
    if SubqueriesOf(es) == [] then input else SubqueriesSet(SubqueriesOf(es), input)
  }

  /** The validator keeps the error of the last node whose arity is wrong. */
  function Validator(l: Factory): Visitor<Option<PlanError>, PlanError>
  {
    Visitor((error: Option<PlanError>, e: Expression) =>
              match CheckArity(l, e) case Ok(_) => Ok(Continue(error)) case Err(x) => Ok(Stop(Some(x))),
            (error: Option<PlanError>, e: Expression) => Ok(error))
  }

  function CheckArity(l: Factory, e: Expression): Result<(), PlanError>
  {
    if e.ScalarFunction? then
      var features :- FromFactory(l.features(e.op));
      ValidateArguments(e.op, |e.args|, features)
    else Ok(())
  }

  /** `validate_expression`. */
  function Validate(c: Context, e: Expression): Result<(), PlanError>
  {
    var _ :- TypeOf(c, e);
    var found :- Accepted(Validator(c.factory), None, e);
    match found case Some(x) => Err(x) case None => Ok(())
  }

  function ValidateAll(c: Context, es: seq<Expression>): Result<(), PlanError>
  {
    if es == [] then Ok(())
    else
      var _ :- Validate(c, es[0]);
      ValidateAll(c, es[1..])
  }

  function ExpandWildcards(schema: Schema, es: seq<Expression>): seq<Expression>
  {
    if es == [] then []
    else
      var rest := ExpandWildcards(schema, es[1..]);
      if es[0].Wildcard? then seq(|schema|, i requires 0 <= i < |schema| => Column(schema[i].name)) + rest
      else [es[0]] + rest
  }

  /** Fields whose name is new, and not a star, are appended. */
  function MergeFields(merged: Schema, fields: Schema): Schema
    decreases |fields|
  {
    if fields == [] then merged
    else
      var f := fields[0];
      if f.name == "*" || (exists i :: 0 <= i < |merged| && merged[i].name == f.name) then
        MergeFields(merged, fields[1..])
      else MergeFields(merged + [f], fields[1..])
  }

  function BuildExpression(b: Builder, input: Plan, es: seq<Expression>, desc: string): Result<Plan, PlanError>
  {
    var c := ContextOf(b, input);
    var exprs := ExpandWildcards(c.schema, es);
    var _ :- ValidateAll(c, exprs);
    var fields :- FieldsOf(c, exprs);
    Ok(ExpressionPlan(exprs, MergeFields(c.schema, fields), Wrap(input, exprs), desc))
  }

  method ExpandLoop(schema: Schema, es: seq<Expression>) returns (exprs: seq<Expression>)
    ensures exprs == ExpandWildcards(schema, es)
  {
    exprs := [];
    for i := 0 to |es|
      invariant exprs + ExpandWildcards(schema, es[i..]) == ExpandWildcards(schema, es)
    {
      assert es[i..][1..] == es[i + 1..];
      if es[i].Wildcard? {
        exprs := exprs + seq(|schema|, j requires 0 <= j < |schema| => Column(schema[j].name));
      } else {
        exprs := exprs + [es[i]];
      }
    }
  }

  method ValidateLoop(c: Context, es: seq<Expression>) returns (r: Result<(), PlanError>)
    ensures r == ValidateAll(c, es)
  {
    for i := 0 to |es|
      invariant ValidateAll(c, es[i..]) == ValidateAll(c, es)
    {
      assert es[i..][1..] == es[i + 1..];
      var v := Validate(c, es[i]);
      if v.Err? { return v; }
    }
    r := Ok(());
  }

  method MergeLoop(schema: Schema, fields: Schema) returns (merged: Schema)
    ensures merged == MergeFields(schema, fields)
  {
    merged := schema;
    for i := 0 to |fields|
      invariant MergeFields(merged, fields[i..]) == MergeFields(schema, fields)
    {
      assert fields[i..][1..] == fields[i + 1..];
      var f := fields[i];
      if !(exists j :: 0 <= j < |merged| && merged[j].name == f.name) && f.name != "*" {
        merged := merged + [f];
      }
    }
  }

  /** `PlanBuilder::expression`, which grows both lists in loops. */
  method BuilderExpression(b: Builder, input: Plan, es: seq<Expression>, desc: string)
    returns (r: Result<Plan, PlanError>)
    ensures r == BuildExpression(b, input, es, desc)
  {
    var c := ContextOf(b, input);
    var exprs := ExpandLoop(c.schema, es);
    var valid := ValidateLoop(c, exprs);
    if valid.Err? { return Err(valid.error); }
    var fields := FieldsOf(c, exprs);
    if fields.Err? { return Err(fields.error); }
    var merged := MergeLoop(c.schema, fields.value);
    r := Ok(ExpressionPlan(exprs, merged, Wrap(input, exprs), desc));
  }

  function BuildProjection(b: Builder, input: Plan, es: seq<Expression>): Result<Plan, PlanError>
  {
    var fields :- FieldsOf(ContextOf(b, input), es);
    Ok(Projection(es, fields, Wrap(input, es)))
  }

  function BuildFilter(b: Builder, input: Plan, e: Expression): Result<Plan, PlanError>
  {
    var _ :- Validate(ContextOf(b, input), e);
    Ok(Filter(e, PlanSchema(b.factory, input), Wrap(input, [e])))
  }

  function BuildHaving(b: Builder, input: Plan, e: Expression): Result<Plan, PlanError>
  {
    var _ :- Validate(ContextOf(b, input), e);
    Ok(Having(e, PlanSchema(b.factory, input), Wrap(input, [e])))
  }

  function BuildSort(b: Builder, input: Plan, es: seq<Expression>): Result<Plan, PlanError>
  {
    Ok(SortPlan(es, PlanSchema(b.factory, input), Wrap(input, es)))
  }

  /** The fields of a partial aggregation: a state for each aggregate and, with groups, their key. */
  function PartialFields(b: Builder, schema: Schema, aggr: seq<Expression>, group: seq<Expression>)
    : Result<Schema, PlanError>
  {
    var fields :- FieldsOf(Context(b.format, b.factory, schema), aggr);
    var states := seq(|fields|, i requires 0 <= i < |fields| => Field(fields[i].name, b.stateType));
    if group == [] then Ok(states)
    else
      var names := seq(|group|, i requires 0 <= i < |group| => ColumnName(b.format, group[i]));
      var t :- FromFactory(b.keyType(schema, names));
      Ok(states + [Field("_group_by_key", t)])
  }

  function BuildPartial(b: Builder, input: Plan, aggr: seq<Expression>, group: seq<Expression>)
    : Result<Plan, PlanError>
  {
    var fields :- PartialFields(b, PlanSchema(b.factory, input), aggr, group);
    Ok(AggregatorPartial(aggr, group, fields, input))
  }

  /** The final aggregation's fields are typed over the schema before grouping. */
  function BuildFinal(b: Builder, input: Plan, before: Schema, aggr: seq<Expression>, group: seq<Expression>)
    : Result<Plan, PlanError>
  {
    var fields :- FieldsOf(Context(b.format, b.factory, before), aggr + group);
    Ok(AggregatorFinal(aggr, group, fields, before, input))
  }

  // ----- Plans the builder builds -----

  /** What a step was applied to, below the subquery set it may have inserted. */
  function Unwrapped(input: Plan): (q: Plan)
    ensures q == input || q < input
  {
    if input.SubqueriesSet? then input.setInput else input
  }

  predicate IsSource(p: Plan)
  {
    p.Empty? || p.ReadSource? || p.Remote?
  }

  /** Nodes that only stand over their input. */
  predicate Passes(p: Plan)
  {
    p.Stage? || p.Broadcast? || p.Limit? || p.LimitBy? || p.Select? || p.Explain?
  }

  function Passed(p: Plan): (input: Plan)
    requires Passes(p)
    ensures input < p
  {
    match p
    case Stage(_, _, input) => input
    case Broadcast(input) => input
    case Limit(_, _, input) => input
    case LimitBy(_, input, _) => input
    case Select(input) => input
    case Explain(_, input) => input
  }

  /** The same node over another input. */
  function PassOver(p: Plan, input: Plan): (q: Plan)
    requires Passes(p)
    ensures Passes(q) && Passed(q) == input && (input == Passed(p) ==> q == p)
  {
    match p
    case Stage(kind, scatters, _) => Stage(kind, scatters, input)
    case Broadcast(_) => Broadcast(input)
    case Limit(n, offset, _) => Limit(n, offset, input)
    case LimitBy(n, _, es) => LimitBy(n, input, es)
    case Select(_) => Select(input)
    case Explain(kind, _) => Explain(kind, input)
  }

  /** Nodes that evaluate a list of expressions. */
  predicate HasList(p: Plan)
  {
    p.Projection? || p.ExpressionPlan? || p.SortPlan?
  }

  function List(p: Plan): seq<Expression>
    requires HasList(p)
  {
    if p.Projection? then p.projections else if p.ExpressionPlan? then p.exprs else p.orderBy
  }

  function ListInput(p: Plan): (input: Plan)
    requires HasList(p)
    ensures input < p
  {
    if p.Projection? then p.projectionInput else if p.ExpressionPlan? then p.exprInput else p.sortInput
  }

  /** The builder's step for such a node, on another input and other expressions. */
  function BuildList(b: Builder, p: Plan, input: Plan, es: seq<Expression>): Result<Plan, PlanError>
    requires HasList(p)
  {
    if p.Projection? then BuildProjection(b, input, es)
    else if p.ExpressionPlan? then BuildExpression(b, input, es, p.desc)
    else BuildSort(b, input, es)
  }

  /** Nodes that evaluate a condition. */
  predicate HasCondition(p: Plan)
  {
    p.Filter? || p.Having?
  }

  function Condition(p: Plan): Expression
    requires HasCondition(p)
  {
    if p.Filter? then p.filterPredicate else p.havingPredicate
  }

  function ConditionInput(p: Plan): (input: Plan)
    requires HasCondition(p)
    ensures input < p
  {
    if p.Filter? then p.filterInput else p.havingInput
  }

  function BuildCondition(b: Builder, p: Plan, input: Plan, e: Expression): Result<Plan, PlanError>
    requires HasCondition(p)
  {
    if p.Filter? then BuildFilter(b, input, e) else BuildHaving(b, input, e)
  }

  /** The input of an aggregation, and the same aggregation over another. */
  function Grouped(p: Plan): (input: Plan)
    requires p.AggregatorPartial? || p.AggregatorFinal?
    ensures input < p
  {
    if p.AggregatorPartial? then p.partialInput else p.finalInput
  }

  function Regrouped(p: Plan, input: Plan): (q: Plan)
    requires p.AggregatorPartial? || p.AggregatorFinal?
    ensures input == Grouped(p) ==> q == p
  {
    if p.AggregatorPartial? then p.(partialInput := input) else p.(finalInput := input)
  }

  /** Built up from sources by the builder's steps, subqueries included. */
  ghost predicate Built(b: Builder, p: Plan)
    decreases p
  {
    if IsSource(p) then true
    else if Passes(p) then Built(b, Passed(p))
    else if HasList(p) then
      var input := Unwrapped(ListInput(p));
      Built(b, input) && AllBuilt(b, List(p)) && BuildList(b, p, input, List(p)) == Ok(p)
    else if HasCondition(p) then
      var input := Unwrapped(ConditionInput(p));
      Built(b, input) && BuiltExpr(b, Condition(p)) && BuildCondition(b, p, input, Condition(p)) == Ok(p)
    else if p.AggregatorPartial? then
      && Built(b, p.partialInput) && AllBuilt(b, p.partialAggr) && AllBuilt(b, p.partialGroup)
      && BuildPartial(b, p.partialInput, p.partialAggr, p.partialGroup) == Ok(p)
    else if p.AggregatorFinal? then
      && Built(b, p.finalInput) && AllBuilt(b, p.finalAggr) && AllBuilt(b, p.finalGroup)
      && BuildFinal(b, p.finalInput, p.beforeGroupBy, p.finalAggr, p.finalGroup) == Ok(p)
    else false
  }

  ghost predicate AllBuilt(b: Builder, es: seq<Expression>)
    decreases es
  {
    forall i :: 0 <= i < |es| ==> BuiltExpr(b, es[i])
  }

  /** Every subquery in the expression is a built plan. */
  ghost predicate BuiltExpr(b: Builder, e: Expression)
    decreases e
  {
    && (e.Subquery? ==> Built(b, e.subqueryPlan))
    && (e.ScalarSubquery? ==> Built(b, e.scalarPlan))
    && forall i :: 0 <= i < |Children(e)| ==> BuiltExpr(b, Children(e)[i])
  }

  lemma BuiltIsNoSet(b: Builder, input: Plan, es: seq<Expression>)
    requires Built(b, input)
    ensures Unwrapped(Wrap(input, es)) == input
  {
  }

  lemma {:induction false} WildcardsGone(schema: Schema, es: seq<Expression>)
    ensures ExpandWildcards(schema, ExpandWildcards(schema, es)) == ExpandWildcards(schema, es)
    decreases |es|
  {
    if es != [] {
      var rest := ExpandWildcards(schema, es[1..]);
      WildcardsGone(schema, es[1..]);
      if es[0].Wildcard? {
        var cols := seq(|schema|, i requires 0 <= i < |schema| => Column(schema[i].name));
        NoWildcards(schema, cols, rest);
      } else {
        assert ([es[0]] + rest)[1..] == rest;
      }
    }
  }

  lemma {:induction false} NoWildcards(schema: Schema, cols: seq<Expression>, rest: seq<Expression>)
    requires forall i :: 0 <= i < |cols| ==> !cols[i].Wildcard?
    requires ExpandWildcards(schema, rest) == rest
    ensures ExpandWildcards(schema, cols + rest) == cols + rest
    decreases |cols|
  {
    if cols == [] {
      assert cols + rest == rest;
    } else {
      assert (cols + rest)[1..] == cols[1..] + rest;
      NoWildcards(schema, cols[1..], rest);
      assert [cols[0]] + (cols[1..] + rest) == cols + rest;
    }
  }

  lemma {:induction false} ExpandedAreBuilt(b: Builder, schema: Schema, es: seq<Expression>)
    requires AllBuilt(b, es)
    ensures AllBuilt(b, ExpandWildcards(schema, es))
    decreases |es|
  {
    if es != [] {
      ExpandedAreBuilt(b, schema, es[1..]);
    }
  }

  /** A step's own expressions, put through the step again, give the same plan. */
  lemma ExpressionStepStable(b: Builder, input: Plan, es: seq<Expression>, desc: string)
    requires BuildExpression(b, input, es, desc).Ok?
    ensures var p := BuildExpression(b, input, es, desc).value;
            p.exprs == ExpandWildcards(PlanSchema(b.factory, input), es) &&
            BuildExpression(b, input, p.exprs, desc) == Ok(p)
  {
    WildcardsGone(PlanSchema(b.factory, input), es);
  }

  // ----- Built plans are what the builder's steps build -----

  /** A step of the builder, or a distribution node put over a plan. */
  datatype BuildStep =
    | Project(projected: seq<Expression>)
    | Express(expressed: seq<Expression>, about: string)
    | FilterBy(condition: Expression)
    | HavingBy(groupCondition: Expression)
    | SortBy(keys: seq<Expression>)
    | PartialBy(states: seq<Expression>, stateGroups: seq<Expression>)
    | FinalBy(before: Schema, aggregates: seq<Expression>, aggregateGroups: seq<Expression>)
    | LimitTo(rows: Option<nat>, skipped: nat)
    | LimitEach(each: nat, groups: seq<Expression>)
    | SelectAll
    | ExplainAs(explainKind: string)
    | StageAs(stageKind: string, scatter: Expression)
    | BroadcastAll

  function Build(b: Builder, input: Plan, step: BuildStep): Result<Plan, PlanError>
  {
    match step
    case Project(es) => BuildProjection(b, input, es)
    case Express(es, about) => BuildExpression(b, input, es, about)
    case FilterBy(e) => BuildFilter(b, input, e)
    case HavingBy(e) => BuildHaving(b, input, e)
    case SortBy(es) => BuildSort(b, input, es)
    case PartialBy(aggr, group) => BuildPartial(b, input, aggr, group)
    case FinalBy(before, aggr, group) => BuildFinal(b, input, before, aggr, group)
    case _ => Ok(Over(input, step))
  }

  predicate Evaluates(step: BuildStep)
  {
    || step.Project? || step.Express? || step.FilterBy? || step.HavingBy? || step.SortBy?
    || step.PartialBy? || step.FinalBy?
  }

  /** The steps that only put a node over the plan. */
  function Over(input: Plan, step: BuildStep): (p: Plan)
    requires !Evaluates(step)
    ensures Passes(p) && Passed(p) == input
  {
    match step
    case LimitTo(n, offset) => Limit(n, offset, input)
    case LimitEach(n, es) => LimitBy(n, input, es)
    case SelectAll => Select(input)
    case ExplainAs(kind) => Explain(kind, input)
    case StageAs(kind, scatter) => Stage(kind, scatter, input)
    case BroadcastAll => Broadcast(input)
  }

  function BuildAll(b: Builder, source: Plan, steps: seq<BuildStep>): Result<Plan, PlanError>
  {
    if steps == [] then Ok(source)
    else
      var input :- BuildAll(b, source, steps[..|steps| - 1]);
      Build(b, input, steps[|steps| - 1])
  }

  /** The expressions a step evaluates. */
  function Evaluated(step: BuildStep): seq<Expression>
  {
    match step
    case Project(es) => es
    case Express(es, _) => es
    case FilterBy(e) => [e]
    case HavingBy(e) => [e]
    case SortBy(es) => es
    case PartialBy(aggr, group) => aggr + group
    case FinalBy(_, aggr, group) => aggr + group
    case _ => []
  }

  /** The steps build the plan from the source, and their subqueries are built plans too. */
  ghost predicate Builds(b: Builder, source: Plan, steps: seq<BuildStep>, p: Plan)
  {
    && IsSource(source) && BuildAll(b, source, steps) == Ok(p)
    && forall i :: 0 <= i < |steps| ==> AllBuilt(b, Evaluated(steps[i]))
  }

  ghost predicate CanBuild(b: Builder, input: Plan, step: BuildStep)
  {
    && Built(b, input) && Build(b, input, step).Ok?
    && AllBuilt(b, Evaluated(step))
  }

  lemma ListBuilds(b: Builder, input: Plan, step: BuildStep)
    requires CanBuild(b, input, step) && (step.Project? || step.SortBy?)
    ensures Built(b, Build(b, input, step).value)
  {
    BuiltIsNoSet(b, input, Evaluated(step));
  }

  lemma ConditionBuilds(b: Builder, input: Plan, step: BuildStep)
    requires CanBuild(b, input, step) && (step.FilterBy? || step.HavingBy?)
    ensures Built(b, Build(b, input, step).value)
  {
    BuiltIsNoSet(b, input, Evaluated(step));
    assert BuiltExpr(b, Evaluated(step)[0]);
  }

  /** `expression`, also over wildcards. */
  lemma ExpressBuilds(b: Builder, input: Plan, step: BuildStep)
    requires CanBuild(b, input, step) && step.Express?
    ensures Built(b, Build(b, input, step).value)
  {
    ExpressionStepStable(b, input, step.expressed, step.about);
    assert Evaluated(step) == step.expressed;
    ExpandedAreBuilt(b, PlanSchema(b.factory, input), step.expressed);
    BuiltIsNoSet(b, input, ExpandWildcards(PlanSchema(b.factory, input), step.expressed));
  }

  lemma AllBuiltConcat(b: Builder, es: seq<Expression>, fs: seq<Expression>)
    ensures AllBuilt(b, es + fs) <==> AllBuilt(b, es) && AllBuilt(b, fs)
  {
    var all := es + fs;
    assert forall i :: 0 <= i < |es| ==> es[i] == all[i];
    assert forall i :: 0 <= i < |fs| ==> fs[i] == all[|es| + i];
  }

  lemma PartialBuilds(b: Builder, input: Plan, aggr: seq<Expression>, group: seq<Expression>)
    requires Built(b, input) && AllBuilt(b, aggr + group) && BuildPartial(b, input, aggr, group).Ok?
    ensures Built(b, BuildPartial(b, input, aggr, group).value)
  {
    AllBuiltConcat(b, aggr, group);
  }

  lemma FinalBuilds(b: Builder, input: Plan, before: Schema, aggr: seq<Expression>, group: seq<Expression>)
    requires Built(b, input) && AllBuilt(b, aggr + group) && BuildFinal(b, input, before, aggr, group).Ok?
    ensures Built(b, BuildFinal(b, input, before, aggr, group).value)
  {
    AllBuiltConcat(b, aggr, group);
  }

  lemma OverBuilds(b: Builder, input: Plan, step: BuildStep)
    requires Built(b, input) && !Evaluates(step)
    ensures Built(b, Over(input, step))
  {
    var p := Over(input, step);
    assert !IsSource(p) && Built(b, Passed(p));
  }

  /** Every step keeps plans built. */
  lemma StepBuilds(b: Builder, input: Plan, step: BuildStep)
    requires CanBuild(b, input, step)
    ensures Built(b, Build(b, input, step).value)
  {
    if step.Express? {
      ExpressBuilds(b, input, step);
    } else if step.Project? || step.SortBy? {
      ListBuilds(b, input, step);
    } else if step.FilterBy? || step.HavingBy? {
      ConditionBuilds(b, input, step);
    } else if step.PartialBy? {
      PartialBuilds(b, input, step.states, step.stateGroups);
    } else if step.FinalBy? {
      FinalBuilds(b, input, step.before, step.aggregates, step.aggregateGroups);
    } else {
      OverBuilds(b, input, step);
    }
  }

  lemma {:induction false} StepsBuild(b: Builder, source: Plan, steps: seq<BuildStep>, p: Plan)
    requires Builds(b, source, steps, p)
    ensures Built(b, p)
    decreases |steps|
  {
    if steps != [] {
      var n := |steps| - 1;
      var input := BuildAll(b, source, steps[..n]).value;
      assert forall i :: 0 <= i < n ==> steps[..n][i] == steps[i];
      StepsBuild(b, source, steps[..n], input);
      StepBuilds(b, input, steps[n]);
    }
  }

  /** The last step of a built plan that is not a source, and what it was applied to. */
  function LastStep(p: Plan): (BuildStep, Plan)
    requires !IsSource(p) && !p.SubqueriesSet?
  {
    match p
    case Projection(es, _, input) => (Project(es), Unwrapped(input))
    case ExpressionPlan(es, _, input, about) => (Express(es, about), Unwrapped(input))
    case Filter(e, _, input) => (FilterBy(e), Unwrapped(input))
    case Having(e, _, input) => (HavingBy(e), Unwrapped(input))
    case SortPlan(es, _, input) => (SortBy(es), Unwrapped(input))
    case Limit(n, offset, input) => (LimitTo(n, offset), input)
    case LimitBy(n, input, es) => (LimitEach(n, es), input)
    case Select(input) => (SelectAll, input)
    case Explain(kind, input) => (ExplainAs(kind), input)
    case Stage(kind, scatter, input) => (StageAs(kind, scatter), input)
    case Broadcast(input) => (BroadcastAll, input)
    case AggregatorPartial(aggr, group, _, input) => (PartialBy(aggr, group), input)
    case AggregatorFinal(aggr, group, _, before, input) => (FinalBy(before, aggr, group), input)
  }

  lemma LastStepBuilds(b: Builder, p: Plan)
    requires Built(b, p) && !IsSource(p)
    ensures var (step, input) := LastStep(p);
            && Built(b, input) && Build(b, input, step) == Ok(p)
            && AllBuilt(b, Evaluated(step))
  {
    if Passes(p) {
      LastPassBuilds(b, p);
    } else if p.AggregatorPartial? || p.AggregatorFinal? {
      LastGroupBuilds(b, p);
    } else {
      LastEvaluationBuilds(b, p);
    }
  }

  lemma LastPassBuilds(b: Builder, p: Plan)
    requires Built(b, p) && Passes(p)
    ensures var (step, input) := LastStep(p);
            && Built(b, input) && Build(b, input, step) == Ok(p) && AllBuilt(b, Evaluated(step))
  {
    assert LastStep(p).1 == Passed(p) && !Evaluates(LastStep(p).0);
  }

  lemma LastGroupBuilds(b: Builder, p: Plan)
    requires Built(b, p) && (p.AggregatorPartial? || p.AggregatorFinal?)
    ensures var (step, input) := LastStep(p);
            && Built(b, input) && Build(b, input, step) == Ok(p) && AllBuilt(b, Evaluated(step))
  {
    if p.AggregatorPartial? {
      AllBuiltConcat(b, p.partialAggr, p.partialGroup);
    } else {
      AllBuiltConcat(b, p.finalAggr, p.finalGroup);
    }
  }

  lemma LastEvaluationBuilds(b: Builder, p: Plan)
    requires Built(b, p) && (HasList(p) || HasCondition(p))
    ensures var (step, input) := LastStep(p);
            && Built(b, input) && Build(b, input, step) == Ok(p) && AllBuilt(b, Evaluated(step))
  {
  }

  lemma LastStepSmaller(p: Plan)
    requires !IsSource(p) && !p.SubqueriesSet?
    ensures LastStep(p).1 < p
  {
  }

  /** Every built plan comes from a source by steps. */
  lemma {:induction false} BuiltBySteps(b: Builder, p: Plan) returns (source: Plan, steps: seq<BuildStep>)
    requires Built(b, p)
    ensures Builds(b, source, steps, p)
    decreases p
  {
    if IsSource(p) {
      source, steps := p, [];
    } else {
      var (step, input) := LastStep(p);
      LastStepSmaller(p);
      LastStepBuilds(b, p);
      var before;
      source, before := BuiltBySteps(b, input);
      steps := before + [step];
      BuildsMore(b, source, before, input, step);
    }
  }

  lemma BuildAllMore(b: Builder, source: Plan, before: seq<BuildStep>, input: Plan, step: BuildStep)
    requires BuildAll(b, source, before) == Ok(input)
    ensures BuildAll(b, source, before + [step]) == Build(b, input, step)
  {
    var steps := before + [step];
    assert steps[..|steps| - 1] == before && steps[|steps| - 1] == step;
  }

  lemma BuildsMore(b: Builder, source: Plan, before: seq<BuildStep>, input: Plan, step: BuildStep)
    requires Builds(b, source, before, input) && Build(b, input, step).Ok?
    requires AllBuilt(b, Evaluated(step))
    ensures Builds(b, source, before + [step], Build(b, input, step).value)
  {
    BuildAllMore(b, source, before, input, step);
    var steps := before + [step];
    forall i | 0 <= i < |steps|
      ensures AllBuilt(b, Evaluated(steps[i]))
    {
      if i < |before| {
        assert steps[i] == before[i];
      }
    }
  }

  ghost predicate Buildable(b: Builder, p: Plan)
  {
    exists source, steps :: Builds(b, source, steps, p)
  }

  /** The built plans are exactly those that come from a source by the builder's steps. */
  lemma BuiltIffBuildable(b: Builder, p: Plan)
    ensures Built(b, p) <==> Buildable(b, p)
  {
    if Built(b, p) {
      var source, steps := BuiltBySteps(b, p);
    }
    if Buildable(b, p) {
      var source, steps :| Builds(b, source, steps, p);
      StepsBuild(b, source, steps, p);
    }
  }
}
