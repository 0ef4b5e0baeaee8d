/**
  The default `PlanRewriter` (common/planners/src/plan_node_rewriter.rs) with three ways of rewriting
  aggregations, which an implementer must supply: kept over the rewritten input, as its tests do
  (common/planners/tests/it/plan_rewriter.rs); rebuilt with the schema before grouping, which waits in the
  rewriter from a partial aggregation to the final one, as the top-n optimizer does
  (query/src/optimizers/optimizer_top_n_push_down.rs); and any other.
 */
module PlanRewriter {
  import opened Wrappers
  import opened Expressions
  import opened Visitor
  import opened StackVisitors
  import opened DataTypes
  import opened ExpressionRewriter
  import opened Plans

  /** `before_group_by_schema`. */
  type Pending = Option<Schema>

  datatype Aggregation = Keeping | Rebuilding | Other(rewrite: Plan -> Result<Plan, PlanError>)

  function RewritePlan(b: Builder, h: Aggregation, t: Pending, p: Plan): Result<(Plan, Pending), PlanError>
    decreases p
  {
    if IsSource(p) then Ok((p, t))
    else if Passes(p) then
      var (input, t1) :- RewritePlan(b, h, t, Passed(p));
      Ok((PassOver(p, input), t1))
    else if p.SubqueriesSet? then RewritePlan(b, h, t, p.setInput)
    else if HasList(p) then
      var (input, t1) :- RewritePlan(b, h, t, ListInput(p));
      var es :- RewriteExprs(b, h, List(p));
      var q :- BuildList(b, p, input, es);
      Ok((q, t1))
    else if HasCondition(p) then
      var (input, t1) :- RewritePlan(b, h, t, ConditionInput(p));
      var e :- RewriteExpr(b, h, Condition(p));
      var q :- BuildCondition(b, p, input, e);
      Ok((q, t1))
    else if h.Other? then
      var q :- h.rewrite(p);
      Ok((q, t))
    else
      var (input, t1) :- RewritePlan(b, h, t, Grouped(p));
      if h.Keeping? then Ok((Regrouped(p, input), t1))
      else if p.AggregatorPartial? then
        if t1.Some? then Err(Unsupported)
        else
          var q :- RebuildPartial(b, h, input, p);
          Ok((q, Some(PlanSchema(b.factory, input))))
      else if t1.None? then Err(Unsupported)
      else
        var q :- RebuildFinal(b, h, input, t1.value, p);
        Ok((q, None))
  }

  function RebuildPartial(b: Builder, h: Aggregation, input: Plan, p: Plan): Result<Plan, PlanError>
    requires p.AggregatorPartial?
    decreases p, 0
  {
    var aggr :- RewriteExprs(b, h, p.partialAggr);
    var group :- RewriteExprs(b, h, p.partialGroup);
    BuildPartial(b, input, aggr, group)
  }

  function RebuildFinal(b: Builder, h: Aggregation, input: Plan, before: Schema, p: Plan): Result<Plan, PlanError>
    requires p.AggregatorFinal?
    decreases p, 0
  {
    var aggr :- RewriteExprs(b, h, p.finalAggr);
    var group :- RewriteExprs(b, h, p.finalGroup);
    BuildFinal(b, input, before, aggr, group)
  }

  /** First to last, up to the first error. */
  function RewriteExprs(b: Builder, h: Aggregation, es: seq<Expression>): Result<seq<Expression>, PlanError>
    decreases es
  {
    if es == [] then Ok([])
    else
      var e :- RewriteExpr(b, h, es[0]);
      var rest :- RewriteExprs(b, h, es[1..]);
      Ok([e] + rest)
  }

  /** `rewrite_expr`: subqueries are rewritten as plans, with nothing waiting; all else is rebuilt. */
  function RewriteExpr(b: Builder, h: Aggregation, e: Expression): Result<Expression, PlanError>
    decreases e, |Children(e)| + 1
  {
    if e.Subquery? then
      var (p, _) :- RewritePlan(b, h, None, e.subqueryPlan);
      Ok(Subquery(e.subqueryName, p))
    else if e.ScalarSubquery? then
      var (p, _) :- RewritePlan(b, h, None, e.scalarPlan);
      Ok(ScalarSubquery(e.scalarName, p))
    else
      var cs :- RewriteChildren(b, h, e, Children(e));
      Ok(WithChildren(e, cs))
  }

  ghost predicate AllBelow(cs: seq<Expression>, e: Expression)
  {
    forall i :: 0 <= i < |cs| ==> cs[i] < e
  }

  /** Expressions below `e`, last to first. */
  function RewriteChildren(b: Builder, h: Aggregation, e: Expression, cs: seq<Expression>)
    : (r: Result<seq<Expression>, PlanError>)
    requires AllBelow(cs, e)
    ensures r.Ok? ==> |r.value| == |cs|
    decreases e, |cs|
  {
    if cs == [] then Ok([])
    else
      var x :- RewriteExpr(b, h, cs[|cs| - 1]);
      var xs :- RewriteChildren(b, h, e, cs[..|cs| - 1]);
      Ok(xs + [x])
  }

  // ----- Rewriting aggregations in another way -----

  /** The plan that the default makes of an aggregation. */
  ghost predicate IsDefault(b: Builder, f: Plan -> Result<Plan, PlanError>)
  {
    forall p: Plan :: p.AggregatorPartial? || p.AggregatorFinal? ==>
      f(p) == match RewritePlan(b, Keeping, None, p) case Ok((q, _)) => Ok(q) case Err(x) => Err(x)
  }

  /** Keeping aggregations, whatever waits before a plan waits after it, and has no part in the plan. */
  lemma {:induction false} KeepingPasses(b: Builder, t: Pending, p: Plan)
    ensures RewritePlan(b, Keeping, t, p)
         == match RewritePlan(b, Keeping, None, p) case Ok((q, _)) => Ok((q, t)) case Err(x) => Err(x)
    decreases p
  {
    if !IsSource(p) {
      KeepingPasses(b, t, Below(p));
    }
  }

  /** The input of a plan that is no source. */
  function Below(p: Plan): (input: Plan)
    requires !IsSource(p)
    ensures input < p
  {
    if Passes(p) then Passed(p)
    else if p.SubqueriesSet? then p.setInput
    else if HasList(p) then ListInput(p)
    else if HasCondition(p) then ConditionInput(p)
    else Grouped(p)
  }

  /** A rewriter that hands aggregations to a function of its own does what the default does if the function does. */
  lemma {:induction false} OtherIsDefault(b: Builder, f: Plan -> Result<Plan, PlanError>, t: Pending, p: Plan)
    requires IsDefault(b, f)
    ensures RewritePlan(b, Other(f), t, p) == RewritePlan(b, Keeping, t, p)
    decreases p
  {
    if !IsSource(p) {
      OtherIsDefault(b, f, t, Below(p));
      if HasList(p) {
        OtherIsDefaultAll(b, f, List(p));
      } else if HasCondition(p) {
        OtherIsDefaultIn(b, f, Condition(p));
      } else if p.AggregatorPartial? || p.AggregatorFinal? {
        KeepingPasses(b, t, p);
      }
    }
  }

  lemma {:induction false} OtherIsDefaultAll(b: Builder, f: Plan -> Result<Plan, PlanError>, es: seq<Expression>)
    requires IsDefault(b, f)
    ensures RewriteExprs(b, Other(f), es) == RewriteExprs(b, Keeping, es)
    decreases es
  {
    if es != [] {
      OtherIsDefaultIn(b, f, es[0]);
      OtherIsDefaultAll(b, f, es[1..]);
    }
  }

  lemma {:induction false} OtherIsDefaultIn(b: Builder, f: Plan -> Result<Plan, PlanError>, e: Expression)
    requires IsDefault(b, f)
    ensures RewriteExpr(b, Other(f), e) == RewriteExpr(b, Keeping, e)
    decreases e, |Children(e)| + 1
  {
    if e.Subquery? {
      OtherIsDefault(b, f, None, e.subqueryPlan);
    } else if e.ScalarSubquery? {
      OtherIsDefault(b, f, None, e.scalarPlan);
    } else {
      OtherIsDefaultBelow(b, f, e, Children(e));
    }
  }

  lemma {:induction false} OtherIsDefaultBelow(b: Builder, f: Plan -> Result<Plan, PlanError>, e: Expression,
                                               cs: seq<Expression>)
    requires IsDefault(b, f) && AllBelow(cs, e)
    ensures RewriteChildren(b, Other(f), e, cs) == RewriteChildren(b, Keeping, e, cs)
    decreases e, |cs|
  {
    if cs != [] {
      OtherIsDefaultIn(b, f, cs[|cs| - 1]);
      OtherIsDefaultBelow(b, f, e, cs[..|cs| - 1]);
    }
  }

  // ----- How the schema before grouping travels -----

  /**
    What waits after the plan if `t` waits before it. Where aggregations are rebuilt, a partial one finds
    nothing waiting and leaves the schema of its input, and the final one finds its own schema before grouping
    and leaves nothing; in subqueries it all starts anew. None where that is not so, and where an aggregation
    is rewritten in another way.
   */
  ghost function Flow(b: Builder, h: Aggregation, t: Pending, p: Plan): Option<Pending>
    decreases p
  {
    if IsSource(p) then Some(t)
    else if Passes(p) then Flow(b, h, t, Passed(p))
    else if p.SubqueriesSet? then Flow(b, h, t, p.setInput)
    else if HasList(p) then
      if AllArrive(b, h, List(p)) then Flow(b, h, t, ListInput(p)) else None
    else if HasCondition(p) then
      if Arrives(b, h, Condition(p)) then Flow(b, h, t, ConditionInput(p)) else None
    else if h.Other? then None
    else if h.Keeping? then Flow(b, h, t, Grouped(p))
    else if p.AggregatorPartial? then
      if && Flow(b, h, t, p.partialInput) == Some(None)
         && AllArrive(b, h, p.partialAggr) && AllArrive(b, h, p.partialGroup)
      then Some(Some(PlanSchema(b.factory, p.partialInput)))
      else None
    else
      if && Flow(b, h, t, p.finalInput) == Some(Some(p.beforeGroupBy))
         && AllArrive(b, h, p.finalAggr) && AllArrive(b, h, p.finalGroup)
      then Some(None)
      else None
  }

  ghost predicate AllArrive(b: Builder, h: Aggregation, es: seq<Expression>)
    decreases es
  {
    forall i :: 0 <= i < |es| ==> Arrives(b, h, es[i])
  }

  /** In every subquery the schemas arrive. */
  ghost predicate Arrives(b: Builder, h: Aggregation, e: Expression)
    decreases e
  {
    && (e.Subquery? ==> Flow(b, h, None, e.subqueryPlan).Some?)
    && (e.ScalarSubquery? ==> Flow(b, h, None, e.scalarPlan).Some?)
    && forall i :: 0 <= i < |Children(e)| ==> Arrives(b, h, Children(e)[i])
  }

  // ----- Built plans come back -----

  /** Where the schemas arrive, the plan comes back identical and leaves what flows through it. */
  ghost predicate ComesBack(b: Builder, h: Aggregation, t: Pending, p: Plan)
  {
    Flow(b, h, t, p).Some? ==> RewritePlan(b, h, t, p) == Ok((p, Flow(b, h, t, p).value))
  }

  /** Built plans come back. */
  lemma {:induction false} RewriteBuilt(b: Builder, h: Aggregation, t: Pending, p: Plan)
    requires Built(b, p)
    ensures ComesBack(b, h, t, p)
    decreases p, 1
  {
    if Passes(p) {
      RewriteBuilt(b, h, t, Passed(p));
    } else if HasList(p) {
      RewriteBuiltList(b, h, t, p);
    } else if HasCondition(p) {
      RewriteBuiltCondition(b, h, t, p);
    } else if !IsSource(p) && !h.Other? {
      RewriteBuiltGroup(b, h, t, p);
    }
  }

  /** A subquery set is stripped on the way. */
  lemma RewriteUnwraps(b: Builder, h: Aggregation, t: Pending, input: Plan)
    ensures RewritePlan(b, h, t, input) == RewritePlan(b, h, t, Unwrapped(input))
    ensures Flow(b, h, t, input) == Flow(b, h, t, Unwrapped(input))
  {
  }

  lemma {:induction false} RewriteBuiltList(b: Builder, h: Aggregation, t: Pending, p: Plan)
    requires Built(b, p) && HasList(p)
    ensures ComesBack(b, h, t, p)
    decreases p, 0
  {
    RewriteUnwraps(b, h, t, ListInput(p));
    RewriteBuilt(b, h, t, Unwrapped(ListInput(p)));
    if AllArrive(b, h, List(p)) {
      RewriteBuiltExprs(b, h, List(p));
    }
  }

  lemma {:induction false} RewriteBuiltCondition(b: Builder, h: Aggregation, t: Pending, p: Plan)
    requires Built(b, p) && HasCondition(p)
    ensures ComesBack(b, h, t, p)
    decreases p, 0
  {
    RewriteUnwraps(b, h, t, ConditionInput(p));
    RewriteBuilt(b, h, t, Unwrapped(ConditionInput(p)));
    if Arrives(b, h, Condition(p)) {
      RewriteBuiltExpr(b, h, Condition(p));
    }
  }

  lemma {:induction false} RewriteBuiltGroup(b: Builder, h: Aggregation, t: Pending, p: Plan)
    requires Built(b, p) && (p.AggregatorPartial? || p.AggregatorFinal?) && !h.Other?
    ensures ComesBack(b, h, t, p)
    decreases p, 0
  {
    RewriteBuilt(b, h, t, Grouped(p));
    if h.Rebuilding? && p.AggregatorPartial? && AllArrive(b, h, p.partialAggr) && AllArrive(b, h, p.partialGroup) {
      RewriteBuiltExprs(b, h, p.partialAggr);
      RewriteBuiltExprs(b, h, p.partialGroup);
    }
    if h.Rebuilding? && p.AggregatorFinal? && AllArrive(b, h, p.finalAggr) && AllArrive(b, h, p.finalGroup) {
      RewriteBuiltExprs(b, h, p.finalAggr);
      RewriteBuiltExprs(b, h, p.finalGroup);
    }
  }

  lemma {:induction false} RewriteBuiltExprs(b: Builder, h: Aggregation, es: seq<Expression>)
    requires AllBuilt(b, es) && AllArrive(b, h, es)
    ensures RewriteExprs(b, h, es) == Ok(es)
    decreases es
  {
    if es != [] {
      RewriteBuiltExpr(b, h, es[0]);
      RewriteBuiltExprs(b, h, es[1..]);
      assert [es[0]] + es[1..] == es;
    }
  }

  lemma {:induction false} RewriteBuiltExpr(b: Builder, h: Aggregation, e: Expression)
    requires BuiltExpr(b, e) && Arrives(b, h, e)
    ensures RewriteExpr(b, h, e) == Ok(e)
    decreases e
  {
    if e.Subquery? {
      RewriteBuilt(b, h, None, e.subqueryPlan);
    } else if e.ScalarSubquery? {
      RewriteBuilt(b, h, None, e.scalarPlan);
    } else {
      forall i | 0 <= i < |Children(e)|
        ensures RewriteExpr(b, h, Children(e)[i]) == Ok(Children(e)[i])
      {
        RewriteBuiltExpr(b, h, Children(e)[i]);
      }
      ChildrenComeBack(b, h, e, Children(e));
    }
  }

  lemma {:induction false} ChildrenComeBack(b: Builder, h: Aggregation, e: Expression, cs: seq<Expression>)
    requires AllBelow(cs, e) && forall i :: 0 <= i < |cs| ==> RewriteExpr(b, h, cs[i]) == Ok(cs[i])
    ensures RewriteChildren(b, h, e, cs) == Ok(cs)
    decreases |cs|
  {
    if cs != [] {
      ChildrenComeBack(b, h, e, cs[..|cs| - 1]);
      assert cs == cs[..|cs| - 1] + [cs[|cs| - 1]];
    }
  }

  // ----- Whatever comes back is built -----

  /** No aggregation in the plan or in its subqueries, as far as the rewriter looks. */
  ghost predicate NoAggregates(p: Plan)
    decreases p
  {
    if IsSource(p) then true
    else if Passes(p) then NoAggregates(Passed(p))
    else if p.SubqueriesSet? then NoAggregates(p.setInput)
    else if HasList(p) then NoAggregates(ListInput(p)) && NoneAggregate(List(p))
    else if HasCondition(p) then NoAggregates(ConditionInput(p)) && NoAggregatesIn(Condition(p))
    else false
  }

  ghost predicate NoneAggregate(es: seq<Expression>)
    decreases es
  {
    forall i :: 0 <= i < |es| ==> NoAggregatesIn(es[i])
  }

  ghost predicate NoAggregatesIn(e: Expression)
    decreases e
  {
    && (e.Subquery? ==> NoAggregates(e.subqueryPlan))
    && (e.ScalarSubquery? ==> NoAggregates(e.scalarPlan))
    && forall i :: 0 <= i < |Children(e)| ==> NoAggregatesIn(Children(e)[i])
  }

  /** The rewritten plan is built, and what waits after the rewriting is what flows through it. */
  ghost predicate ComesBuilt(b: Builder, h: Aggregation, t: Pending, p: Plan)
  {
    var r := RewritePlan(b, h, t, p);
    r.Ok? ==> Built(b, r.value.0) && Flow(b, h, t, r.value.0) == Some(r.value.1)
  }

  /** Rewritten expressions are built, and the schemas arrive in their subqueries. */
  ghost predicate Fit(b: Builder, h: Aggregation, es: seq<Expression>)
  {
    AllBuilt(b, es) && AllArrive(b, h, es)
  }

  lemma {:induction false} RewriteBuilds(b: Builder, h: Aggregation, t: Pending, p: Plan)
    requires h.Rebuilding? || NoAggregates(p)
    ensures ComesBuilt(b, h, t, p)
    decreases p, 1
  {
    if Passes(p) {
      RewriteBuilds(b, h, t, Passed(p));
    } else if p.SubqueriesSet? {
      RewriteBuilds(b, h, t, p.setInput);
    } else if HasList(p) {
      RewriteBuildsList(b, h, t, p);
    } else if HasCondition(p) {
      RewriteBuildsCondition(b, h, t, p);
    } else if p.AggregatorPartial? {
      RewriteBuildsPartial(b, h, t, p);
    } else if p.AggregatorFinal? {
      RewriteBuildsFinal(b, h, t, p);
    }
  }

  lemma {:induction false} ExpandedFit(b: Builder, h: Aggregation, schema: Schema, es: seq<Expression>)
    requires Fit(b, h, es)
    ensures Fit(b, h, ExpandWildcards(schema, es))
    decreases |es|
  {
    if es != [] {
      ExpandedFit(b, h, schema, es[1..]);
    }
  }

  lemma FlowWrapped(b: Builder, h: Aggregation, t: Pending, input: Plan, es: seq<Expression>)
    ensures Flow(b, h, t, Wrap(input, es)) == Flow(b, h, t, input)
  {
  }

  /** What flows through the node of a list is what flows through its input. */
  lemma ListFlows(b: Builder, h: Aggregation, t: Pending, p: Plan, input: Plan, es: seq<Expression>)
    requires HasList(p) && BuildList(b, p, input, es).Ok? && Fit(b, h, es)
    ensures Flow(b, h, t, BuildList(b, p, input, es).value) == Flow(b, h, t, input)
  {
    var q := BuildList(b, p, input, es).value;
    FlowWrapped(b, h, t, input, List(q));
    if p.ExpressionPlan? {
      ExpandedFit(b, h, PlanSchema(b.factory, input), es);
    }
  }

  lemma ListIsBuilt(b: Builder, p: Plan, input: Plan, es: seq<Expression>)
    requires HasList(p) && BuildList(b, p, input, es).Ok? && Built(b, input) && AllBuilt(b, es)
    ensures Built(b, BuildList(b, p, input, es).value)
  {
    if p.Projection? {
      ListBuilds(b, input, Project(es));
    } else if p.SortPlan? {
      ListBuilds(b, input, SortBy(es));
    } else {
      ExpressBuilds(b, input, Express(es, p.desc));
    }
  }

  lemma {:induction false} RewriteBuildsList(b: Builder, h: Aggregation, t: Pending, p: Plan)
    requires (h.Rebuilding? || NoAggregates(p)) && HasList(p)
    ensures ComesBuilt(b, h, t, p)
    decreases p, 0
  {
    RewriteBuilds(b, h, t, ListInput(p));
    RewriteBuildsExprs(b, h, List(p));
    if RewritePlan(b, h, t, p).Ok? {
      var input, es := RewritePlan(b, h, t, ListInput(p)).value.0, RewriteExprs(b, h, List(p)).value;
      ListIsBuilt(b, p, input, es);
      ListFlows(b, h, t, p, input, es);
    }
  }

  lemma ConditionFlows(b: Builder, h: Aggregation, t: Pending, p: Plan, input: Plan, e: Expression)
    requires HasCondition(p) && BuildCondition(b, p, input, e).Ok? && Arrives(b, h, e)
    ensures Flow(b, h, t, BuildCondition(b, p, input, e).value) == Flow(b, h, t, input)
  {
    var q := BuildCondition(b, p, input, e).value;
    FlowWrapped(b, h, t, input, [e]);
    assert HasCondition(q) && Condition(q) == e && ConditionInput(q) == Wrap(input, [e]);
  }

  lemma ConditionIsBuilt(b: Builder, p: Plan, input: Plan, e: Expression)
    requires HasCondition(p) && BuildCondition(b, p, input, e).Ok? && Built(b, input) && BuiltExpr(b, e)
    ensures Built(b, BuildCondition(b, p, input, e).value)
  {
    StepBuilds(b, input, if p.Filter? then FilterBy(e) else HavingBy(e));
  }

  lemma {:induction false} RewriteBuildsCondition(b: Builder, h: Aggregation, t: Pending, p: Plan)
    requires (h.Rebuilding? || NoAggregates(p)) && HasCondition(p)
    ensures ComesBuilt(b, h, t, p)
    decreases p, 0
  {
    RewriteBuilds(b, h, t, ConditionInput(p));
    RewriteBuildsExpr(b, h, Condition(p));
    if RewritePlan(b, h, t, p).Ok? {
      var input, e := RewritePlan(b, h, t, ConditionInput(p)).value.0, RewriteExpr(b, h, Condition(p)).value;
      ConditionIsBuilt(b, p, input, e);
      ConditionFlows(b, h, t, p, input, e);
    }
  }

  lemma {:induction false} RewriteBuildsPartial(b: Builder, h: Aggregation, t: Pending, p: Plan)
    requires h.Rebuilding? && p.AggregatorPartial?
    ensures ComesBuilt(b, h, t, p)
    decreases p, 0
  {
    RewriteBuilds(b, h, t, p.partialInput);
    RewriteBuildsExprs(b, h, p.partialAggr);
    RewriteBuildsExprs(b, h, p.partialGroup);
    if RewritePlan(b, h, t, p).Ok? {
      var input := RewritePlan(b, h, t, p.partialInput).value.0;
      assert RebuildPartial(b, h, input, p).Ok?;
      var aggr, group := RewriteExprs(b, h, p.partialAggr).value, RewriteExprs(b, h, p.partialGroup).value;
      AllBuiltConcat(b, aggr, group);
      PartialBuilds(b, input, aggr, group);
    }
  }

  lemma {:induction false} RewriteBuildsFinal(b: Builder, h: Aggregation, t: Pending, p: Plan)
    requires h.Rebuilding? && p.AggregatorFinal?
    ensures ComesBuilt(b, h, t, p)
    decreases p, 0
  {
    RewriteBuilds(b, h, t, p.finalInput);
    RewriteBuildsExprs(b, h, p.finalAggr);
    RewriteBuildsExprs(b, h, p.finalGroup);
    if RewritePlan(b, h, t, p).Ok? {
      var (input, t1) := RewritePlan(b, h, t, p.finalInput).value;
      assert RebuildFinal(b, h, input, t1.value, p).Ok?;
      var aggr, group := RewriteExprs(b, h, p.finalAggr).value, RewriteExprs(b, h, p.finalGroup).value;
      AllBuiltConcat(b, aggr, group);
      FinalBuilds(b, input, t1.value, aggr, group);
    }
  }

  lemma {:induction false} RewriteBuildsExprs(b: Builder, h: Aggregation, es: seq<Expression>)
    requires h.Rebuilding? || NoneAggregate(es)
    ensures RewriteExprs(b, h, es).Ok? ==> Fit(b, h, RewriteExprs(b, h, es).value)
    decreases es
  {
    if es != [] {
      RewriteBuildsExpr(b, h, es[0]);
      RewriteBuildsExprs(b, h, es[1..]);
    }
  }

  lemma {:induction false} RewriteBuildsExpr(b: Builder, h: Aggregation, e: Expression)
    requires h.Rebuilding? || NoAggregatesIn(e)
    ensures var r := RewriteExpr(b, h, e); r.Ok? ==> BuiltExpr(b, r.value) && Arrives(b, h, r.value)
    decreases e, |Children(e)| + 1
  {
    if e.Subquery? {
      RewriteBuilds(b, h, None, e.subqueryPlan);
    } else if e.ScalarSubquery? {
      RewriteBuilds(b, h, None, e.scalarPlan);
    } else {
      RewriteBuildsChildren(b, h, e, Children(e));
      var r := RewriteChildren(b, h, e, Children(e));
      if r.Ok? {
        RebuiltFits(b, h, e, r.value);
      }
    }
  }

  /** A node that is no subquery, over fitting children. */
  lemma RebuiltFits(b: Builder, h: Aggregation, e: Expression, cs: seq<Expression>)
    requires !e.Subquery? && !e.ScalarSubquery? && |cs| == |Children(e)| && Fit(b, h, cs)
    ensures BuiltExpr(b, WithChildren(e, cs)) && Arrives(b, h, WithChildren(e, cs))
  {
    var x := WithChildren(e, cs);
    assert Children(x) == cs && !x.Subquery? && !x.ScalarSubquery?;
  }

  lemma {:induction false} RewriteBuildsChildren(b: Builder, h: Aggregation, e: Expression, cs: seq<Expression>)
    requires (h.Rebuilding? || NoneAggregate(cs)) && AllBelow(cs, e)
    ensures RewriteChildren(b, h, e, cs).Ok? ==> Fit(b, h, RewriteChildren(b, h, e, cs).value)
    decreases e, |cs|
  {
    if cs != [] {
      RewriteBuildsExpr(b, h, cs[|cs| - 1]);
      RewriteBuildsChildren(b, h, e, cs[..|cs| - 1]);
    }
  }

  // ----- When the rewriter is the identity -----

  /**
    With rebuilt aggregations a plan comes back as it is exactly when the builder's steps can build it and every
    schema before grouping arrives where it is expected; and rewriting what came back changes nothing.
   */
  lemma RewriteIsIdentityIff(b: Builder, h: Aggregation, t: Pending, p: Plan, t': Pending)
    requires h.Rebuilding? || NoAggregates(p)
    ensures RewritePlan(b, h, t, p) == Ok((p, t')) <==> Buildable(b, p) && Flow(b, h, t, p) == Some(t')
    ensures RewritePlan(b, h, t, p).Ok? ==>
              RewritePlan(b, h, t, RewritePlan(b, h, t, p).value.0) == RewritePlan(b, h, t, p)
  {
    RewriteBuilds(b, h, t, p);
    BuiltIffBuildable(b, p);
    if Built(b, p) {
      RewriteBuilt(b, h, t, p);
    }
    if RewritePlan(b, h, t, p).Ok? {
      RewriteBuilt(b, h, t, RewritePlan(b, h, t, p).value.0);
    }
  }

  /** Nothing is expected where there are no aggregations, or where they are kept. */
  lemma {:induction false} FlowsThrough(b: Builder, h: Aggregation, t: Pending, p: Plan)
    requires h.Keeping? || NoAggregates(p)
    ensures Flow(b, h, t, p) == Some(t)
    decreases p
  {
    if Passes(p) {
      FlowsThrough(b, h, t, Passed(p));
    } else if p.SubqueriesSet? {
      FlowsThrough(b, h, t, p.setInput);
    } else if HasList(p) {
      FlowsThrough(b, h, t, ListInput(p));
      AllArriveThrough(b, h, List(p));
    } else if HasCondition(p) {
      FlowsThrough(b, h, t, ConditionInput(p));
      ArrivesThrough(b, h, Condition(p));
    } else if !IsSource(p) {
      FlowsThrough(b, h, t, Grouped(p));
    }
  }

  lemma {:induction false} AllArriveThrough(b: Builder, h: Aggregation, es: seq<Expression>)
    requires h.Keeping? || NoneAggregate(es)
    ensures AllArrive(b, h, es)
    decreases es
  {
    forall i | 0 <= i < |es|
      ensures Arrives(b, h, es[i])
    {
      ArrivesThrough(b, h, es[i]);
    }
  }

  lemma {:induction false} ArrivesThrough(b: Builder, h: Aggregation, e: Expression)
    requires h.Keeping? || NoAggregatesIn(e)
    ensures Arrives(b, h, e)
    decreases e
  {
    if e.Subquery? {
      FlowsThrough(b, h, None, e.subqueryPlan);
    }
    if e.ScalarSubquery? {
      FlowsThrough(b, h, None, e.scalarPlan);
    }
    forall i | 0 <= i < |Children(e)|
      ensures Arrives(b, h, Children(e)[i])
    {
      ArrivesThrough(b, h, Children(e)[i]);
    }
  }

  /** So without aggregations, whatever the implementer does with them: exactly the buildable plans. */
  lemma DefaultIsIdentityIff(b: Builder, h: Aggregation, t: Pending, p: Plan)
    requires NoAggregates(p)
    ensures RewritePlan(b, h, t, p) == Ok((p, t)) <==> Buildable(b, p)
  {
    FlowsThrough(b, h, t, p);
    RewriteIsIdentityIff(b, h, t, p, t);
  }

  /** With kept aggregations, whatever the builder builds by its steps comes back identical. */
  lemma BuilderPlansAreFixed(b: Builder, t: Pending, source: Plan, steps: seq<BuildStep>, p: Plan)
    requires Builds(b, source, steps, p)
    ensures RewritePlan(b, Keeping, t, p) == Ok((p, t))
  {
    StepsBuild(b, source, steps, p);
    FlowsThrough(b, Keeping, t, p);
    RewriteBuilt(b, Keeping, t, p);
  }

  // ----- Groupings -----

  /** A final aggregation over a partial one, as the planner builds it, with subqueries that are in order. */
  ghost predicate Grouping(b: Builder, p: Plan)
  {
    && p.AggregatorFinal? && p.finalInput.AggregatorPartial?
    && Flow(b, Rebuilding, None, p.finalInput.partialInput) == Some(None)
    && AllArrive(b, Rebuilding, p.finalAggr) && AllArrive(b, Rebuilding, p.finalGroup)
    && AllArrive(b, Rebuilding, p.finalInput.partialAggr) && AllArrive(b, Rebuilding, p.finalInput.partialGroup)
  }

  /** A built grouping comes back exactly when it was given the schema of the partial one's input. */
  lemma GroupingIsFixedIff(b: Builder, p: Plan)
    requires Built(b, p) && Grouping(b, p)
    ensures RewritePlan(b, Rebuilding, None, p) == Ok((p, None)) <==>
            p.beforeGroupBy == PlanSchema(b.factory, p.finalInput.partialInput)
  {
    assert Flow(b, Rebuilding, None, p.finalInput) == Some(Some(PlanSchema(b.factory, p.finalInput.partialInput)));
    BuiltIffBuildable(b, p);
    RewriteIsIdentityIff(b, Rebuilding, None, p, None);
  }

  /** So a grouping in a subquery, also of an aggregation, is in order exactly when it is by itself. */
  lemma NestedGroupingArrivesIff(b: Builder, name: string, p: Plan)
    requires Grouping(b, p)
    ensures Arrives(b, Rebuilding, ScalarSubquery(name, p)) <==>
            p.beforeGroupBy == PlanSchema(b.factory, p.finalInput.partialInput)
  {
    assert Flow(b, Rebuilding, None, p.finalInput) == Some(Some(PlanSchema(b.factory, p.finalInput.partialInput)));
    assert Children(ScalarSubquery(name, p)) == [];
  }

  /**
    The failing input: a partial aggregation over a partial one. The builder builds it, and the rewriter refuses
    it since the inner one's schema is still waiting.
   */
  lemma PartialOverPartialRefused(b: Builder, inner: Plan, aggr: seq<Expression>, group: seq<Expression>)
    requires Built(b, inner) && inner.AggregatorPartial? && Flow(b, Rebuilding, None, inner).Some?
    requires AllBuilt(b, aggr + group) && BuildPartial(b, inner, aggr, group).Ok?
    ensures var p := BuildPartial(b, inner, aggr, group).value;
            Buildable(b, p) && RewritePlan(b, Rebuilding, None, p).Err?
  {
    PartialBuilds(b, inner, aggr, group);
    BuiltIffBuildable(b, BuildPartial(b, inner, aggr, group).value);
    RewriteBuilt(b, Rebuilding, None, inner);
  }

  // ----- On the expression rewriter's machine -----

  /** `RewriteSubquery`: the default hooks, with subqueries handed to the plan rewriter. */
  function SubqueryRewriter(b: Builder, h: Aggregation): Rewriter<(), PlanError>
  {
    Rewriter((t: (), e: Expression) => Ok((t, true)),
             (t: (), e: Expression, cs: seq<Expression>) => WithUnit(MutateNode(b, h, e, cs)))
  }

  function WithUnit<X>(r: Result<X, PlanError>): Result<((), X), PlanError>
  {
    match r case Ok(x) => Ok(((), x)) case Err(x) => Err(x)
  }

  function MutateNode(b: Builder, h: Aggregation, e: Expression, cs: seq<Expression>): Result<Expression, PlanError>
  {
    if e.Subquery? then
      var (p, _) :- RewritePlan(b, h, None, e.subqueryPlan);
      Ok(Subquery(e.subqueryName, p))
    else if e.ScalarSubquery? then
      var (p, _) :- RewritePlan(b, h, None, e.scalarPlan);
      Ok(ScalarSubquery(e.scalarName, p))
    else if |cs| == |Children(e)| then Ok(WithChildren(e, cs)) else Err(StackUnderflow)
  }

  /** The stack machine with these hooks computes `RewriteExpr`. */
  lemma RewriteExprOnMachine(b: Builder, h: Aggregation, e: Expression)
    ensures Machine(SubqueryRewriter(b, h), (), e) == OfHook(RewriteExpr(b, h, e))
  {
    RewriteWalk(SubqueryRewriter(b, h), (), e);
    FoldIsRewriteExpr(b, h, e);
  }

  lemma BeforeHook(b: Builder, h: Aggregation, e: Expression)
    ensures RewriteHooks(SubqueryRewriter(b, h)).before((), e) == Ok(((), true))
  {
    var w := SubqueryRewriter(b, h);
    assert RewriteHooks(w).before((), e) == OfHook(w.preVisit((), e));
  }

  lemma MutateHook(b: Builder, h: Aggregation, e: Expression, cs: seq<Expression>)
    ensures RewriteHooks(SubqueryRewriter(b, h)).combine((), e, cs) == OfHook(WithUnit(MutateNode(b, h, e, cs)))
  {
    var w := SubqueryRewriter(b, h);
    assert RewriteHooks(w).combine((), e, cs) == OfHook(w.mutate((), e, cs));
  }

  /** A subquery has no children, and any other node is rebuilt over its own. */
  lemma NodeAgrees(b: Builder, h: Aggregation, e: Expression)
    ensures var r := RewriteChildren(b, h, e, Children(e));
            RewriteExpr(b, h, e) == if r.Ok? then MutateNode(b, h, e, r.value) else Err(r.error)
  {
    if e.Subquery? || e.ScalarSubquery? {
      assert Children(e) == [] && RewriteChildren(b, h, e, []) == Ok([]);
    }
  }

  lemma {:induction false} FoldIsRewriteExpr(b: Builder, h: Aggregation, e: Expression)
    ensures Fold(RewriteHooks(SubqueryRewriter(b, h)), (), e) == OfHook(WithUnit(RewriteExpr(b, h, e)))
    decreases e, |Children(e)| + 1
  {
    FoldIsRewriteChildren(b, h, e, Children(e));
    NodeAgrees(b, h, e);
    BeforeHook(b, h, e);
    var r := RewriteChildren(b, h, e, Children(e));
    if r.Ok? {
      MutateHook(b, h, e, r.value);
    }
  }

  lemma {:induction false} FoldIsRewriteChildren(b: Builder, h: Aggregation, e: Expression, cs: seq<Expression>)
    requires AllBelow(cs, e)
    ensures FoldAll(RewriteHooks(SubqueryRewriter(b, h)), (), cs) == OfHook(WithUnit(RewriteChildren(b, h, e, cs)))
    decreases e, |cs|
  {
    if cs != [] {
      FoldIsRewriteExpr(b, h, cs[|cs| - 1]);
      FoldIsRewriteChildren(b, h, e, cs[..|cs| - 1]);
    }
  }
}
