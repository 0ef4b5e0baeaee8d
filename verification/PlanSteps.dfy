/**
  What the steps of `PlanBuilder` build (common/planners/src/plan_node_builder.rs): the subqueries under a
  node, its schema, and which steps succeed.
 */
module PlanSteps {
  import opened Wrappers
  import opened Expressions
  import opened Visitor
  import opened DataTypes
  import opened TypeSoundness
  import opened Occurrences
  import opened Plans

  // ----- Subqueries, left to right -----

  function IsSubquery(): Test
  {
    (e: Expression) => e.Subquery? || e.ScalarSubquery?
  }

  lemma {:induction false} CollectedAreNodes(e: Expression)
    ensures Subqueries(e) == NodesTo(IsSubquery(), e)
    decreases Size(e), 0
  {
    if !IsSubquery()(e) {
      CollectedAreNodesAll(Children(e));
    }
  }

  lemma {:induction false} CollectedAreNodesAll(es: seq<Expression>)
    ensures SubqueriesOf(es) == NodesIn(IsSubquery(), es)
    decreases SizeAll(es), 1
  {
    if es != [] {
      CollectedAreNodesAll(es[..|es| - 1]);
      CollectedAreNodes(es[|es| - 1]);
    }
  }

  /** What is collected from the expressions is every subquery that occurs in them, from left to right. */
  lemma CollectedInOrder(es: seq<Expression>)
    ensures ListsOccurrences(IsSubquery(), es, SubqueriesOf(es))
  {
    CollectedAreNodesAll(es);
    NodesInOrder(IsSubquery(), es);
  }

  /** A subquery has no children, so the ones that occur are all there are. */
  lemma OccursIffBelow(es: seq<Expression>, x: Expression)
    ensures Occurs(IsSubquery(), es, x) <==> IsSubquery()(x) && exists i :: 0 <= i < |es| && Below(x, es[i])
  {
    if path :| OccursAtIn(IsSubquery(), es, path, x) {
      AtIsBelow(es[path[0]], path[1..], x);
    }
    if IsSubquery()(x) {
      if i: nat :| i < |es| && Below(x, es[i]) {
        var path := WayDown(es[i], x);
        assert ([i] + path)[1..] == path;
        assert OccursAtIn(IsSubquery(), es, [i] + path, x);
      }
    }
  }

  lemma {:induction false} AtIsBelow(e: Expression, path: Path, x: Expression)
    requires OccursAt(IsSubquery(), e, path, x)
    ensures IsSubquery()(x) && Below(x, e)
    decreases |path|
  {
    if path != [] {
      AtIsBelow(Children(e)[path[0]], path[1..], x);
    }
  }

  lemma {:induction false} WayDown(e: Expression, x: Expression) returns (path: Path)
    requires IsSubquery()(x) && Below(x, e)
    ensures OccursAt(IsSubquery(), e, path, x)
    decreases e
  {
    if x == e {
      path := [];
    } else {
      var i: nat :| i < |Children(e)| && Below(x, Children(e)[i]);
      var rest := WayDown(Children(e)[i], x);
      path := [i] + rest;
      assert path[1..] == rest;
    }
  }

  // ----- The input of a node -----

  /** The node's input is the plan it was built over, unless a subquery occurs; then the subqueries stand between. */
  ghost predicate StandsOver(below: Plan, input: Plan, es: seq<Expression>)
  {
    && (below == input <==> forall x :: !Occurs(IsSubquery(), es, x))
    && (below != input ==>
          exists subs :: below == SubqueriesSet(subs, input) && ListsOccurrences(IsSubquery(), es, subs))
  }

  lemma WrapStandsOver(input: Plan, es: seq<Expression>)
    ensures StandsOver(Wrap(input, es), input, es)
  {
    var subs := SubqueriesOf(es);
    CollectedInOrder(es);
    forall x
      ensures x in subs <==> Occurs(IsSubquery(), es, x)
    {
      ListedIffOccurs(IsSubquery(), es, subs, x);
    }
    if subs != [] {
      assert Occurs(IsSubquery(), es, subs[0]);
      assert SubqueriesSet(subs, input) != input;
    }
  }

  /** The column under which a subquery's result is read: its name and type. */
  ghost predicate HasResult(l: Factory, schema: Schema, x: Expression)
  {
    exists i ::
      && 0 <= i < |schema|
      && match x
         case Subquery(n, p) => schema[i].name == n && IsArrays(l, PlanSchema(l, p), schema[i].dataType)
         case ScalarSubquery(n, p) => schema[i].name == n && IsRow(l, PlanSchema(l, p), schema[i].dataType)
         case _ => false
  }

  lemma ResultInSet(l: Factory, subs: seq<Expression>, input: Plan, i: nat)
    requires i < |subs| && IsSubquery()(subs[i])
    ensures PlanSchema(l, input) <= PlanSchema(l, SubqueriesSet(subs, input))
    ensures HasResult(l, PlanSchema(l, SubqueriesSet(subs, input))[|PlanSchema(l, input)|..], subs[i])
  {
    var added := PlanSchema(l, SubqueriesSet(subs, input))[|PlanSchema(l, input)|..];
    assert added[i] == SubqueryField(l, subs[i]);
    if subs[i].Subquery? {
      SubqueryTypeIff(l, PlanSchema(l, subs[i].subqueryPlan), added[i].dataType);
    } else {
      ScalarSubqueryTypeIff(l, PlanSchema(l, subs[i].scalarPlan), added[i].dataType);
    }
  }

  lemma ListedResult(l: Factory, subs: seq<Expression>, input: Plan, x: Expression)
    requires x in subs && IsSubquery()(x)
    ensures PlanSchema(l, input) <= PlanSchema(l, SubqueriesSet(subs, input))
    ensures HasResult(l, PlanSchema(l, SubqueriesSet(subs, input))[|PlanSchema(l, input)|..], x)
  {
    var i: nat :| i < |subs| && subs[i] == x;
    ResultInSet(l, subs, input, i);
  }

  lemma OccurringIsListed(below: Plan, input: Plan, es: seq<Expression>, x: Expression) returns (subs: seq<Expression>)
    requires StandsOver(below, input, es) && Occurs(IsSubquery(), es, x)
    ensures below == SubqueriesSet(subs, input) && x in subs && IsSubquery()(x)
  {
    subs :| below == SubqueriesSet(subs, input) && ListsOccurrences(IsSubquery(), es, subs);
    ListedIffOccurs(IsSubquery(), es, subs, x);
    OccursIffBelow(es, x);
  }

  lemma ResultsAreBelow(l: Factory, below: Plan, input: Plan, es: seq<Expression>, x: Expression)
    requires StandsOver(below, input, es) && Occurs(IsSubquery(), es, x)
    ensures PlanSchema(l, input) <= PlanSchema(l, below)
    ensures HasResult(l, PlanSchema(l, below)[|PlanSchema(l, input)|..], x)
  {
    var subs := OccurringIsListed(below, input, es, x);
    ListedResult(l, subs, input, x);
  }

  /** No type is the array of itself, and struct types differ in their members. */
  ghost predicate TypesApart(l: Factory)
  {
    && (forall t :: l.arrayOf(t) != t)
    && (forall names, ts, us :: l.structOf(names, ts) == l.structOf(names, us) ==> ts == us)
  }

  /**
    Inference gives a scalar subquery a type of arrays, and the column that holds its result has the type of a
    row. They are the same exactly when the subquery has no columns.
   */
  lemma ScalarTypesAgreeIff(c: Context, name: string, p: Plan)
    requires TypesApart(c.factory)
    ensures TypeOf(c, ScalarSubquery(name, p)) == Ok(SubqueryField(c.factory, ScalarSubquery(name, p)).dataType)
            <==> PlanSchema(c.factory, p) == []
  {
    var l, schema := c.factory, PlanSchema(c.factory, p);
    var rows := seq(|schema|, i requires 0 <= i < |schema| => schema[i].dataType);
    var arrays := seq(|schema|, i requires 0 <= i < |schema| => l.arrayOf(schema[i].dataType));
    if schema == [] {
      assert rows == arrays;
    } else {
      assert rows[0] != arrays[0];
    }
  }

  /** Steps whose expressions may hold subqueries. */
  predicate Wraps(step: BuildStep)
  {
    step.Project? || step.Express? || step.FilterBy? || step.HavingBy? || step.SortBy?
  }

  function InputOf(p: Plan): Plan
    requires HasList(p) || HasCondition(p)
  {
    if HasList(p) then ListInput(p) else ConditionInput(p)
  }

  function ExpressionsOf(p: Plan): seq<Expression>
    requires HasList(p) || HasCondition(p)
  {
    if HasList(p) then List(p) else [Condition(p)]
  }

  lemma ListStepWraps(b: Builder, input: Plan, step: BuildStep, p: Plan)
    requires (step.Project? || step.SortBy?) && Build(b, input, step) == Ok(p)
    ensures HasList(p) && List(p) == Evaluated(step) && ListInput(p) == Wrap(input, List(p))
  {
  }

  lemma ExpressStepWraps(b: Builder, input: Plan, step: BuildStep, p: Plan)
    requires step.Express? && Build(b, input, step) == Ok(p)
    ensures HasList(p) && List(p) == ExpandWildcards(PlanSchema(b.factory, input), step.expressed)
    ensures ListInput(p) == Wrap(input, List(p))
  {
    assert Build(b, input, step) == BuildExpression(b, input, step.expressed, step.about);
  }

  lemma ConditionStepWraps(b: Builder, input: Plan, step: BuildStep, p: Plan)
    requires (step.FilterBy? || step.HavingBy?) && Build(b, input, step) == Ok(p)
    ensures HasCondition(p) && [Condition(p)] == Evaluated(step) && ConditionInput(p) == Wrap(input, [Condition(p)])
  {
  }

  /** After the columns of the given plan, the node's input has those with the results of its subqueries. */
  ghost predicate ReadsResults(l: Factory, below: Plan, input: Plan, es: seq<Expression>)
  {
    && PlanSchema(l, input) <= PlanSchema(l, below)
    && forall x :: Occurs(IsSubquery(), es, x) ==> HasResult(l, PlanSchema(l, below)[|PlanSchema(l, input)|..], x)
  }

  lemma WrapReadsResults(l: Factory, below: Plan, input: Plan, es: seq<Expression>)
    requires StandsOver(below, input, es)
    ensures ReadsResults(l, below, input, es)
  {
    if below != input {
      var x :| Occurs(IsSubquery(), es, x);
      ResultsAreBelow(l, below, input, es, x);
    }
    forall x | Occurs(IsSubquery(), es, x)
      ensures HasResult(l, PlanSchema(l, below)[|PlanSchema(l, input)|..], x)
    {
      ResultsAreBelow(l, below, input, es, x);
    }
  }

  /**
    Every such step stands over the given plan and the subqueries of its expressions, and whatever subquery
    occurs has its result among the columns of the node's input.
   */
  lemma StepStandsOver(b: Builder, input: Plan, step: BuildStep, p: Plan)
    requires Wraps(step) && Build(b, input, step) == Ok(p)
    ensures HasList(p) || HasCondition(p)
    ensures ExpressionsOf(p)
         == if step.Express? then ExpandWildcards(PlanSchema(b.factory, input), step.expressed) else Evaluated(step)
    ensures StandsOver(InputOf(p), input, ExpressionsOf(p))
    ensures ReadsResults(b.factory, InputOf(p), input, ExpressionsOf(p))
  {
    if step.Express? {
      ExpressStepWraps(b, input, step, p);
    } else if step.FilterBy? || step.HavingBy? {
      ConditionStepWraps(b, input, step, p);
    } else {
      ListStepWraps(b, input, step, p);
    }
    WrapStandsOver(input, ExpressionsOf(p));
    WrapReadsResults(b.factory, InputOf(p), input, ExpressionsOf(p));
  }

  // ----- Wildcards -----

  function ColumnsOf(schema: Schema): (cs: seq<Expression>)
    ensures |cs| == |schema| && forall i :: 0 <= i < |cs| ==> cs[i] == Column(schema[i].name)
  {
    seq(|schema|, i requires 0 <= i < |schema| => Column(schema[i].name))
  }

  /** Expansion goes through lists position by position. */
  lemma {:induction false} ExpandConcat(schema: Schema, es: seq<Expression>, fs: seq<Expression>)
    ensures ExpandWildcards(schema, es + fs) == ExpandWildcards(schema, es) + ExpandWildcards(schema, fs)
    decreases |es|
  {
    if es == [] {
      assert es + fs == fs;
    } else {
      assert (es + fs)[0] == es[0] && (es + fs)[1..] == es[1..] + fs;
      ExpandConcat(schema, es[1..], fs);
    }
  }

  /** In its place, a wildcard gives the columns of the schema in order, and any other expression itself. */
  lemma ExpandedInPlace(schema: Schema, es: seq<Expression>, e: Expression, fs: seq<Expression>)
    ensures var own := if e == Wildcard then ColumnsOf(schema) else [e];
            ExpandWildcards(schema, es + [e] + fs)
            == ExpandWildcards(schema, es) + own + ExpandWildcards(schema, fs)
  {
    ExpandConcat(schema, es + [e], fs);
    ExpandConcat(schema, es, [e]);
    assert ExpandWildcards(schema, [e]) == if e == Wildcard then ColumnsOf(schema) else [e] by {
      assert [e][1..] == [];
    }
  }

  // ----- Merged schemas -----

  predicate Names(schema: Schema, name: string)
  {
    exists i :: 0 <= i < |schema| && schema[i].name == name
  }

  /** The field's name is no star, not in the schema, and not the name of an earlier field. */
  predicate IsNew(schema: Schema, fields: Schema, j: nat)
    requires j < |fields|
  {
    fields[j].name != "*" && !Names(schema, fields[j].name) && !Names(fields[..j], fields[j].name)
  }

  /** Just the positions of the new fields, in order. */
  ghost predicate Picks(schema: Schema, fields: Schema, picks: seq<nat>)
  {
    && (forall i, j :: 0 <= i < j < |picks| ==> picks[i] < picks[j])
    && (forall i :: 0 <= i < |picks| ==> picks[i] < |fields|)
    && (forall j: nat :: j < |fields| ==> (IsNew(schema, fields, j) <==> j in picks))
  }

  function Picked(fields: Schema, picks: seq<nat>): (r: Schema)
    requires forall i :: 0 <= i < |picks| ==> picks[i] < |fields|
    ensures |r| == |picks| && forall i :: 0 <= i < |r| ==> r[i] == fields[picks[i]]
  {
    seq(|picks|, i requires 0 <= i < |picks| => fields[picks[i]])
  }

  /** The schema followed by the new fields, each name once, with the first type given for it. */
  ghost predicate IsMerge(schema: Schema, fields: Schema, merged: Schema)
  {
    exists picks :: Picks(schema, fields, picks) && merged == schema + Picked(fields, picks)
  }

  lemma NamesConcat(s: Schema, t: Schema, n: string)
    ensures Names(s + t, n) <==> Names(s, n) || Names(t, n)
  {
    if i :| 0 <= i < |s| && s[i].name == n {
      assert (s + t)[i].name == n;
    }
    if i :| 0 <= i < |t| && t[i].name == n {
      assert (s + t)[|s| + i].name == n;
    }
  }

  /** The last field is decided on against the merge of those before it. */
  lemma {:induction false} MergeLast(schema: Schema, fields: Schema, f: Field)
    ensures var m := MergeFields(schema, fields);
            MergeFields(schema, fields + [f]) == if f.name == "*" || Names(m, f.name) then m else m + [f]
    decreases |fields|
  {
    var all := fields + [f];
    if fields == [] {
      assert all[1..] == [];
    } else {
      assert all[0] == fields[0] && all[1..] == fields[1..] + [f];
      if fields[0].name == "*" || Names(schema, fields[0].name) {
        MergeLast(schema, fields[1..], f);
      } else {
        MergeLast(schema + [fields[0]], fields[1..], f);
      }
    }
  }

  /** The names of the merge are those of both, without the star. */
  lemma {:induction false} MergeNames(schema: Schema, fields: Schema, n: string)
    requires n != "*"
    ensures Names(MergeFields(schema, fields), n) <==> Names(schema, n) || Names(fields, n)
    decreases |fields|
  {
    if fields != [] {
      var before, f := fields[..|fields| - 1], fields[|fields| - 1];
      assert fields == before + [f];
      MergeNames(schema, before, n);
      MergeLast(schema, before, f);
      NamesConcat(before, [f], n);
      NamesConcat(MergeFields(schema, before), [f], n);
      assert Names([f], n) <==> f.name == n;
    }
  }

  /** The field would be new after these fields. */
  predicate Unseen(schema: Schema, fields: Schema, f: Field)
  {
    f.name != "*" && !Names(schema, f.name) && !Names(fields, f.name)
  }

  function PicksThen(schema: Schema, fields: Schema, f: Field, picks: seq<nat>): seq<nat>
  {
    if Unseen(schema, fields, f) then picks + [|fields|] else picks
  }

  lemma PicksLast(schema: Schema, fields: Schema, f: Field, picks: seq<nat>)
    requires Picks(schema, fields, picks)
    ensures Picks(schema, fields + [f], PicksThen(schema, fields, f, picks))
  {
    var all, n := fields + [f], |fields|;
    assert all[..n] == fields;
    forall j: nat | j < n
      ensures IsNew(schema, all, j) <==> IsNew(schema, fields, j)
    {
      assert all[..j] == fields[..j] && all[j] == fields[j];
    }
    assert IsNew(schema, all, n) <==> Unseen(schema, fields, f);
  }

  lemma MergeLastUnseen(schema: Schema, fields: Schema, f: Field)
    ensures var m := MergeFields(schema, fields);
            MergeFields(schema, fields + [f]) == if Unseen(schema, fields, f) then m + [f] else m
  {
    MergeLast(schema, fields, f);
    if f.name != "*" {
      MergeNames(schema, fields, f.name);
    }
  }

  lemma PickedThen(schema: Schema, fields: Schema, f: Field, picks: seq<nat>)
    requires forall i :: 0 <= i < |picks| ==> picks[i] < |fields|
    ensures var all, then' := fields + [f], PicksThen(schema, fields, f, picks);
            && (forall i :: 0 <= i < |then'| ==> then'[i] < |all|)
            && Picked(all, then') == Picked(fields, picks) + if Unseen(schema, fields, f) then [f] else []
  {
  }

  lemma MergeMore(schema: Schema, fields: Schema, f: Field, picks: seq<nat>)
    requires forall i :: 0 <= i < |picks| ==> picks[i] < |fields|
    requires MergeFields(schema, fields) == schema + Picked(fields, picks)
    ensures var all, then' := fields + [f], PicksThen(schema, fields, f, picks);
            && (forall i :: 0 <= i < |then'| ==> then'[i] < |all|)
            && MergeFields(schema, all) == schema + Picked(all, then')
  {
    MergeLastUnseen(schema, fields, f);
    PickedThen(schema, fields, f, picks);
  }

  /** The builder merges the fields of the expressions into the schema of the input. */
  lemma {:induction false} MergedIsMerge(schema: Schema, fields: Schema)
    ensures IsMerge(schema, fields, MergeFields(schema, fields))
    decreases |fields|
  {
    if fields == [] {
      assert Picks(schema, fields, []);
      assert MergeFields(schema, fields) == schema + Picked(fields, []);
    } else {
      var before, f := fields[..|fields| - 1], fields[|fields| - 1];
      assert fields == before + [f];
      MergedIsMerge(schema, before);
      var picks: seq<nat> :|
        Picks(schema, before, picks) && MergeFields(schema, before) == schema + Picked(before, picks);
      MergeMore(schema, before, f, picks);
      PicksLast(schema, before, f, picks);
    }
  }

  // ----- The schema of a node -----

  /** A field for each expression: its name, and its type by the rules. */
  ghost predicate FieldsFor(c: Context, es: seq<Expression>, fields: Schema)
  {
    && |fields| == |es|
    && forall i :: 0 <= i < |es| ==>
         fields[i].name == ColumnName(c.format, es[i]) && Judged(c, es[i], fields[i].dataType)
  }

  lemma {:induction false} FieldsAreFor(c: Context, es: seq<Expression>)
    requires FieldsOf(c, es).Ok?
    ensures FieldsFor(c, es, FieldsOf(c, es).value)
    decreases |es|
  {
    if es != [] {
      FieldsAreFor(c, es[1..]);
      var fields := FieldsOf(c, es).value;
      TypeIff(c, es[0], fields[0].dataType);
      FieldsForMore(c, es, fields);
    }
  }

  lemma FieldsForMore(c: Context, es: seq<Expression>, fields: Schema)
    requires es != [] && fields != [] && FieldsFor(c, es[1..], fields[1..])
    requires fields[0].name == ColumnName(c.format, es[0]) && Judged(c, es[0], fields[0].dataType)
    ensures FieldsFor(c, es, fields)
  {
    forall i | 0 <= i < |es|
      ensures fields[i].name == ColumnName(c.format, es[i]) && Judged(c, es[i], fields[i].dataType)
    {
      if i > 0 {
        assert es[i] == es[1..][i - 1] && fields[i] == fields[1..][i - 1];
      }
    }
  }

  /** A state column for each aggregate and, with groups, a column for their key. */
  ghost predicate StatesFor(b: Builder, schema: Schema, aggr: seq<Expression>, group: seq<Expression>, states: Schema)
  {
    && |states| == |aggr| + (if group == [] then 0 else 1)
    && (forall i :: 0 <= i < |aggr| ==> states[i] == Field(ColumnName(b.format, aggr[i]), b.stateType))
    && (group != [] ==> exists names: seq<string> ::
          && |names| == |group| && (forall i :: 0 <= i < |group| ==> names[i] == ColumnName(b.format, group[i]))
          && states[|aggr|].name == "_group_by_key"
          && b.keyType(schema, names) == Ok(states[|aggr|].dataType))
  }

  lemma PartialIsStates(b: Builder, schema: Schema, aggr: seq<Expression>, group: seq<Expression>)
    requires PartialFields(b, schema, aggr, group).Ok?
    ensures StatesFor(b, schema, aggr, group, PartialFields(b, schema, aggr, group).value)
  {
    FieldsAreFor(Context(b.format, b.factory, schema), aggr);
    var names := seq(|group|, i requires 0 <= i < |group| => ColumnName(b.format, group[i]));
    assert |names| == |group|;
  }

  /** The schema a step gives its node, from the schema of the plan it is applied to. */
  ghost predicate SchemaAfter(b: Builder, schema: Schema, step: BuildStep, p: Plan, after: Schema)
  {
    var c := Context(b.format, b.factory, schema);
    match step
    case Project(es) => FieldsFor(c, es, after)
    case Express(_, _) =>
      exists fields :: FieldsFor(c, if HasList(p) then List(p) else [], fields) && IsMerge(schema, fields, after)
    case PartialBy(aggr, group) => StatesFor(b, schema, aggr, group, after)
    case FinalBy(before, aggr, group) => FieldsFor(Context(b.format, b.factory, before), aggr + group, after)
    case ExplainAs(_) => after == [Field("explain", b.factory.text)]
    case _ => after == schema
  }

  lemma ProjectSchema(b: Builder, input: Plan, step: BuildStep, p: Plan)
    requires step.Project? && Build(b, input, step) == Ok(p)
    ensures SchemaAfter(b, PlanSchema(b.factory, input), step, p, PlanSchema(b.factory, p))
  {
    var c, es := ContextOf(b, input), step.projected;
    assert BuildProjection(b, input, es) == Ok(p);
    assert FieldsOf(c, es) == Ok(PlanSchema(b.factory, p));
    FieldsAreFor(c, es);
  }

  lemma PartialSchema(b: Builder, input: Plan, step: BuildStep, p: Plan)
    requires step.PartialBy? && Build(b, input, step) == Ok(p)
    ensures SchemaAfter(b, PlanSchema(b.factory, input), step, p, PlanSchema(b.factory, p))
  {
    assert Build(b, input, step) == BuildPartial(b, input, step.states, step.stateGroups);
    PartialIsStates(b, PlanSchema(b.factory, input), step.states, step.stateGroups);
  }

  lemma FinalSchema(b: Builder, input: Plan, step: BuildStep, p: Plan)
    requires step.FinalBy? && Build(b, input, step) == Ok(p)
    ensures SchemaAfter(b, PlanSchema(b.factory, input), step, p, PlanSchema(b.factory, p))
  {
    var c, es := Context(b.format, b.factory, step.before), step.aggregates + step.aggregateGroups;
    assert BuildFinal(b, input, step.before, step.aggregates, step.aggregateGroups) == Ok(p);
    assert FieldsOf(c, es) == Ok(PlanSchema(b.factory, p));
    FieldsAreFor(c, es);
  }

  lemma KeptSchema(b: Builder, input: Plan, step: BuildStep, p: Plan)
    requires (step.FilterBy? || step.HavingBy? || step.SortBy?) && Build(b, input, step) == Ok(p)
    ensures SchemaAfter(b, PlanSchema(b.factory, input), step, p, PlanSchema(b.factory, p))
  {
  }

  lemma OverSchema(b: Builder, input: Plan, step: BuildStep, p: Plan)
    requires !Evaluates(step) && Build(b, input, step) == Ok(p)
    ensures SchemaAfter(b, PlanSchema(b.factory, input), step, p, PlanSchema(b.factory, p))
  {
    assert Build(b, input, step) == Ok(Over(input, step));
  }

  lemma ExpressSchema(b: Builder, input: Plan, step: BuildStep, p: Plan)
    requires step.Express? && Build(b, input, step) == Ok(p)
    ensures SchemaAfter(b, PlanSchema(b.factory, input), step, p, PlanSchema(b.factory, p))
  {
    var c := ContextOf(b, input);
    ExpressStepWraps(b, input, step, p);
    var fields := FieldsOf(c, List(p)).value;
    FieldsAreFor(c, List(p));
    MergedIsMerge(c.schema, fields);
  }

  /** Every step gives its node the schema it should have. */
  lemma StepSchema(b: Builder, input: Plan, step: BuildStep, p: Plan)
    requires Build(b, input, step) == Ok(p)
    ensures SchemaAfter(b, PlanSchema(b.factory, input), step, p, PlanSchema(b.factory, p))
  {
    if step.Project? {
      ProjectSchema(b, input, step, p);
    } else if step.Express? {
      ExpressSchema(b, input, step, p);
    } else if step.PartialBy? {
      PartialSchema(b, input, step, p);
    } else if step.FinalBy? {
      FinalSchema(b, input, step, p);
    } else if Evaluates(step) {
      KeptSchema(b, input, step, p);
    } else {
      OverSchema(b, input, step, p);
    }
  }

  // ----- Which steps succeed -----

  ghost predicate AllTypable(c: Context, es: seq<Expression>)
  {
    forall i :: 0 <= i < |es| ==> Everywhere(TypableIn(c), es[i])
  }

  lemma {:induction false} FieldsExistIff(c: Context, es: seq<Expression>)
    ensures FieldsOf(c, es).Ok? <==> AllTypable(c, es)
    decreases |es|
  {
    if es != [] {
      FieldsExistIff(c, es[1..]);
      TypeExistsIff(c, es[0]);
      AllTypableMore(c, es);
    }
  }

  lemma AllTypableMore(c: Context, es: seq<Expression>)
    requires es != []
    ensures AllTypable(c, es) <==> Everywhere(TypableIn(c), es[0]) && AllTypable(c, es[1..])
  {
    assert forall i :: 0 < i < |es| ==> es[i] == es[1..][i - 1];
  }

  /** The walk of the second check, over an expression that has a type, meets no wrong count. */
  lemma {:induction false} ValidatorPasses(c: Context, e: Expression)
    requires Everywhere(TypableIn(c), e)
    ensures CheckArity(c.factory, e).Ok?
    ensures Walk(Validator(c.factory), None, e) == Ok(None)
    decreases Size(e), 0
  {
    EverywhereUnfold(TypableIn(c), e);
    assert NodeTypable(c, e) by { assert TypableIn(c)(e); }
    ValidatorPassesAll(c, Children(e));
  }

  lemma {:induction false} ValidatorPassesAll(c: Context, es: seq<Expression>)
    requires AllTypable(c, es)
    ensures WalkLastFirst(Validator(c.factory), None, es) == Ok(None)
    decreases SizeAll(es), 1
  {
    if es != [] {
      ValidatorPasses(c, es[|es| - 1]);
      ValidatorPassesAll(c, es[..|es| - 1]);
    }
  }

  /** Validation accepts just what inference types: counting arguments once more refuses nothing. */
  lemma ValidateIff(c: Context, e: Expression)
    ensures Validate(c, e).Ok? <==> Everywhere(TypableIn(c), e)
  {
    TypeExistsIff(c, e);
    if Everywhere(TypableIn(c), e) {
      ValidatorPasses(c, e);
    }
  }

  lemma {:induction false} ValidateAllIff(c: Context, es: seq<Expression>)
    ensures ValidateAll(c, es).Ok? <==> AllTypable(c, es)
    decreases |es|
  {
    if es != [] {
      ValidateAllIff(c, es[1..]);
      ValidateIff(c, es[0]);
      AllTypableMore(c, es);
    }
  }

  /** What a step asks of its expressions. Sorting asks nothing. */
  ghost predicate Possible(b: Builder, schema: Schema, step: BuildStep)
  {
    var c := Context(b.format, b.factory, schema);
    match step
    case Project(es) => AllTypable(c, es)
    case Express(es, _) => AllTypable(c, ExpandWildcards(schema, es))
    case FilterBy(e) => Everywhere(TypableIn(c), e)
    case HavingBy(e) => Everywhere(TypableIn(c), e)
    case PartialBy(aggr, group) => AllTypable(c, aggr) && (group != [] ==> HasKey(b, schema, group))
    case FinalBy(before, aggr, group) => AllTypable(Context(b.format, b.factory, before), aggr + group)
    case _ => true
  }

  ghost predicate HasKey(b: Builder, schema: Schema, group: seq<Expression>)
  {
    exists names: seq<string> ::
      && |names| == |group| && (forall i :: 0 <= i < |group| ==> names[i] == ColumnName(b.format, group[i]))
      && b.keyType(schema, names).Ok?
  }

  lemma PartialIff(b: Builder, schema: Schema, aggr: seq<Expression>, group: seq<Expression>)
    ensures PartialFields(b, schema, aggr, group).Ok?
            <==> AllTypable(Context(b.format, b.factory, schema), aggr) && (group != [] ==> HasKey(b, schema, group))
  {
    FieldsExistIff(Context(b.format, b.factory, schema), aggr);
    var names := seq(|group|, i requires 0 <= i < |group| => ColumnName(b.format, group[i]));
    assert forall ns: seq<string> ::
        |ns| == |group| && (forall i :: 0 <= i < |group| ==> ns[i] == ColumnName(b.format, group[i])) ==> ns == names;
  }

  lemma ExpressOkIff(b: Builder, input: Plan, es: seq<Expression>, about: string)
    ensures BuildExpression(b, input, es, about).Ok?
            <==> AllTypable(ContextOf(b, input), ExpandWildcards(PlanSchema(b.factory, input), es))
  {
    var c := ContextOf(b, input);
    ValidateAllIff(c, ExpandWildcards(c.schema, es));
    FieldsExistIff(c, ExpandWildcards(c.schema, es));
  }

  lemma GroupOkIff(b: Builder, input: Plan, step: BuildStep)
    requires step.PartialBy? || step.FinalBy?
    ensures Build(b, input, step).Ok? <==> Possible(b, PlanSchema(b.factory, input), step)
  {
    match step
    case PartialBy(aggr, group) => PartialIff(b, PlanSchema(b.factory, input), aggr, group);
    case FinalBy(before, aggr, group) => FieldsExistIff(Context(b.format, b.factory, before), aggr + group);
  }

  /** A step succeeds exactly when what it asks of its expressions holds. */
  lemma StepOkIff(b: Builder, input: Plan, step: BuildStep)
    ensures Build(b, input, step).Ok? <==> Possible(b, PlanSchema(b.factory, input), step)
  {
    if step.PartialBy? || step.FinalBy? {
      GroupOkIff(b, input, step);
    } else {
      match step
      case Project(es) => FieldsExistIff(ContextOf(b, input), es);
      case Express(es, about) => ExpressOkIff(b, input, es, about);
      case FilterBy(e) => ValidateIff(ContextOf(b, input), e);
      case HavingBy(e) => ValidateIff(ContextOf(b, input), e);
      case _ =>
    }
  }
}
