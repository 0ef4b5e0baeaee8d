/**
  What type inference computes (common/planners/src/plan_expression_common.rs:384-503): typing rules stated
  as a relation, and the values an expression has when its inputs have theirs.
 */
module TypeSoundness {
  import opened Wrappers
  import opened Expressions
  import opened DataTypes

  // ----- The typing rules -----

  /** The first field of the name has the type. */
  ghost predicate HasField(schema: Schema, name: string, t: DataType)
  {
    exists i :: 0 <= i < |schema| && schema[i] == Field(name, t) && forall j :: 0 <= j < i ==> schema[j].name != name
  }

  /** The function takes so many arguments. */
  predicate TakesCount(l: Factory, op: string, n: nat)
  {
    && l.features(op).Ok?
    && match l.features(op).value.variadic
       case Some((lo, hi)) => lo <= n <= hi
       case None => n == l.features(op).value.numArguments
  }

  /** The name of the function a node applies. */
  function FunctionName(e: Expression): Option<string>
  {
    match e
    case Unary(op, _) => Some(op)
    case Binary(op, _, _) => Some(op)
    case ScalarFunction(op, _) => Some(op)
    case MapAccess(_, _) => Some("get")
    case _ => None
  }

  /** The type of one array per column: the array itself for a single column, or else a struct of them. */
  ghost predicate IsArrays(l: Factory, schema: Schema, t: DataType)
  {
    if |schema| == 1 then t == l.arrayOf(schema[0].dataType)
    else exists names: seq<string>, ts: seq<DataType> ::
      && |names| == |ts| == |schema| && t == l.structOf(names, ts)
      && forall i :: 0 <= i < |schema| ==> names[i] == schema[i].name && ts[i] == l.arrayOf(schema[i].dataType)
  }

  /** The same without the arrays, for a subquery of one row. */
  ghost predicate IsRow(l: Factory, schema: Schema, t: DataType)
  {
    if |schema| == 1 then t == schema[0].dataType
    else exists names: seq<string>, ts: seq<DataType> ::
      && |names| == |ts| == |schema| && t == l.structOf(names, ts)
      && forall i :: 0 <= i < |schema| ==> schema[i] == Field(names[i], ts[i])
  }

  lemma SubqueryTypeIff(l: Factory, schema: Schema, t: DataType)
    ensures t == SubqueryType(l, schema) <==> IsArrays(l, schema, t)
  {
    if |schema| != 1 {
      var ns := seq(|schema|, i requires 0 <= i < |schema| => schema[i].name);
      var us := seq(|schema|, i requires 0 <= i < |schema| => l.arrayOf(schema[i].dataType));
      forall names: seq<string>, ts: seq<DataType> |
        && |names| == |ts| == |schema|
        && forall i :: 0 <= i < |schema| ==> names[i] == schema[i].name && ts[i] == l.arrayOf(schema[i].dataType)
        ensures names == ns && ts == us
      {
      }
      assert |ns| == |us| == |schema|;
    }
  }

  lemma ScalarSubqueryTypeIff(l: Factory, schema: Schema, t: DataType)
    ensures t == ScalarSubqueryType(l, schema) <==> IsRow(l, schema, t)
  {
    if |schema| != 1 {
      var ns := seq(|schema|, i requires 0 <= i < |schema| => schema[i].name);
      var us := seq(|schema|, i requires 0 <= i < |schema| => schema[i].dataType);
      forall names: seq<string>, ts: seq<DataType> |
        && |names| == |ts| == |schema|
        && forall i :: 0 <= i < |schema| ==> schema[i] == Field(names[i], ts[i])
        ensures names == ns && ts == us
      {
      }
      assert |ns| == |us| == |schema|;
    }
  }

  /** `t` is the type of the node where its arguments have the types `ts`. */
  ghost predicate Rule(c: Context, e: Expression, ts: seq<DataType>, t: DataType)
    requires |ts| == |Children(e)|
  {
    if FunctionName(e).Some? then
      var op := FunctionName(e).value;
      TakesCount(c.factory, op, |ts|) && c.factory.returnType(op, ts) == Ok(t)
    else
      match e
      case Column(name) => HasField(c.schema, name, t)
      case Literal(_, _, u) => t == u
      case Subquery(_, p) => IsArrays(c.factory, PlanSchema(c.factory, p), t)
      case ScalarSubquery(_, p) => IsArrays(c.factory, PlanSchema(c.factory, p), t)
      case AggregateFunction(op, d, ps, args) =>
        exists fields: seq<Field> ::
          && |fields| == |args|
          && (forall i :: 0 <= i < |args| ==> fields[i] == Field(ColumnName(c.format, args[i]), ts[i]))
          && c.factory.aggregateType(op, d, ps, fields) == Ok(t)
      case Cast(_, u, _) => t == u
      case Alias(_, _) => t == ts[0]
      case Sort(_, _, _, _) => t == ts[0]
      case _ => false
  }

  /** The expression has the type, by the rules. */
  ghost predicate Judged(c: Context, e: Expression, t: DataType)
    decreases e, 1
  {
    exists ts: seq<DataType> :: |ts| == |Children(e)| && ChildrenJudged(c, e, ts) && Rule(c, e, ts, t)
  }

  ghost predicate ChildrenJudged(c: Context, e: Expression, ts: seq<DataType>)
    requires |ts| == |Children(e)|
    decreases e, 0
  {
    forall i :: 0 <= i < |ts| ==> Judged(c, Children(e)[i], ts[i])
  }

  // ----- Inference follows the rules -----

  lemma {:induction false} FindFieldIff(schema: Schema, name: string, t: DataType)
    ensures FindField(schema, name) == Ok(t) <==> HasField(schema, name, t)
    decreases |schema|
  {
    if schema != [] && schema[0].name != name {
      var rest := schema[1..];
      FindFieldIff(rest, name, t);
      if HasField(rest, name, t) {
        var i :| 0 <= i < |rest| && rest[i] == Field(name, t) && forall j :: 0 <= j < i ==> rest[j].name != name;
        assert schema[i + 1] == Field(name, t) && forall j :: 0 <= j < i + 1 ==> schema[j].name != name;
      }
      if HasField(schema, name, t) {
        var i :| 0 <= i < |schema| && schema[i] == Field(name, t) && forall j :: 0 <= j < i ==> schema[j].name != name;
        assert rest[i - 1] == Field(name, t) && forall j :: 0 <= j < i - 1 ==> rest[j] == schema[j + 1];
      }
    }
  }

  lemma FunctionTypeIff(l: Factory, op: string, ts: seq<DataType>, t: DataType)
    ensures FunctionType(l, op, ts) == Ok(t) <==> TakesCount(l, op, |ts|) && l.returnType(op, ts) == Ok(t)
  {
  }

  lemma NodeTypeIff(c: Context, e: Expression, ts: seq<DataType>, t: DataType)
    requires |ts| == |Children(e)|
    ensures NodeType(c, e, ts) == Ok(t) <==> Rule(c, e, ts, t)
  {
    if FunctionName(e).Some? {
      FunctionTypeIff(c.factory, FunctionName(e).value, ts, t);
    } else if e.Column? {
      FindFieldIff(c.schema, e.column, t);
    } else if e.Subquery? {
      SubqueryTypeIff(c.factory, PlanSchema(c.factory, e.subqueryPlan), t);
    } else if e.ScalarSubquery? {
      SubqueryTypeIff(c.factory, PlanSchema(c.factory, e.scalarPlan), t);
    } else if e.AggregateFunction? {
      var args := e.aggregateArgs;
      forall fields: seq<Field> |
        |fields| == |args| && forall i :: 0 <= i < |args| ==> fields[i] == Field(ColumnName(c.format, args[i]), ts[i])
        ensures fields == NamedFields(c, args, ts)
      {
      }
    }
  }

  lemma TypesOfStep(c: Context, rest: seq<Expression>, last: Expression, ts: seq<DataType>, t: DataType)
    ensures TypesOf(c, rest + [last]) == Ok(ts + [t]) <==> TypesOf(c, rest) == Ok(ts) && TypeOf(c, last) == Ok(t)
  {
    var es := rest + [last];
    assert es[..|es| - 1] == rest && es[|es| - 1] == last;
    if TypesOf(c, es) == Ok(ts + [t]) {
      var us, u := TypesOf(c, rest).value, TypeOf(c, last).value;
      assert us + [u] == ts + [t];
      assert (us + [u])[..|us|] == us && (ts + [t])[..|ts|] == ts;
    }
  }

  /** Each expression is given the type beside it. */
  ghost predicate TypedBy(c: Context, es: seq<Expression>, ts: seq<DataType>)
    requires |ts| == |es|
  {
    forall i :: 0 <= i < |es| ==> TypeOf(c, es[i]) == Ok(ts[i])
  }

  lemma TypedByStep(c: Context, rest: seq<Expression>, last: Expression, ts: seq<DataType>, t: DataType)
    requires |ts| == |rest|
    ensures TypedBy(c, rest + [last], ts + [t]) <==> TypedBy(c, rest, ts) && TypeOf(c, last) == Ok(t)
  {
    var es, us := rest + [last], ts + [t];
    assert es[|rest|] == last && us[|rest|] == t;
    assert forall i :: 0 <= i < |rest| ==> es[i] == rest[i] && us[i] == ts[i];
  }

  lemma TypesOfIffMore(c: Context, rest: seq<Expression>, last: Expression, ts: seq<DataType>, t: DataType)
    requires |ts| == |rest| && (TypesOf(c, rest) == Ok(ts) <==> TypedBy(c, rest, ts))
    ensures TypesOf(c, rest + [last]) == Ok(ts + [t]) <==> TypedBy(c, rest + [last], ts + [t])
  {
    TypesOfStep(c, rest, last, ts, t);
    TypedByStep(c, rest, last, ts, t);
  }

  lemma {:induction false} TypesOfIff(c: Context, es: seq<Expression>, ts: seq<DataType>)
    requires |ts| == |es|
    ensures TypesOf(c, es) == Ok(ts) <==> TypedBy(c, es, ts)
    decreases |es|
  {
    if es == [] {
      assert ts == [];
    } else {
      var rest, last, us, t := es[..|es| - 1], es[|es| - 1], ts[..|es| - 1], ts[|es| - 1];
      assert es == rest + [last] && ts == us + [t];
      TypesOfIff(c, rest, us);
      TypesOfIffMore(c, rest, last, us, t);
    }
  }

  /** Inference gives a type exactly when the rules do, and then that one. */
  lemma {:induction false} TypeIff(c: Context, e: Expression, t: DataType)
    ensures TypeOf(c, e) == Ok(t) <==> Judged(c, e, t)
    decreases e, 1
  {
    if TypeOf(c, e) == Ok(t) {
      var ts := TypesOf(c, Children(e)).value;
      ChildrenIff(c, e, ts);
      NodeTypeIff(c, e, ts, t);
    }
    if Judged(c, e, t) {
      var ts: seq<DataType> :| |ts| == |Children(e)| && ChildrenJudged(c, e, ts) && Rule(c, e, ts, t);
      ChildrenIff(c, e, ts);
      NodeTypeIff(c, e, ts, t);
    }
  }

  lemma {:induction false} ChildrenIff(c: Context, e: Expression, ts: seq<DataType>)
    requires |ts| == |Children(e)|
    ensures TypesOf(c, Children(e)) == Ok(ts) <==> ChildrenJudged(c, e, ts)
    decreases e, 0
  {
    var cs := Children(e);
    forall i | 0 <= i < |cs|
      ensures TypeOf(c, cs[i]) == Ok(ts[i]) <==> Judged(c, cs[i], ts[i])
    {
      TypeIff(c, cs[i], ts[i]);
    }
    TypesOfIff(c, cs, ts);
  }

  // ----- When a type exists -----

  /** What a node needs, given its subexpressions. */
  ghost predicate NodeTypable(c: Context, e: Expression)
  {
    match e
    case Wildcard => false
    case QualifiedColumn(_) => false
    case Column(name) => exists i :: 0 <= i < |c.schema| && c.schema[i].name == name
    case Literal(_, _, _) => true
    case Subquery(_, _) => true
    case ScalarSubquery(_, _) => true
    case Cast(_, _, _) => true
    case Alias(_, _) => true
    case Sort(_, _, _, _) => true
    case _ => exists ts: seq<DataType>, t :: |ts| == |Children(e)| && ChildrenJudged(c, e, ts) && Rule(c, e, ts, t)
  }

  lemma {:induction false} FieldExistsIff(schema: Schema, name: string)
    ensures FindField(schema, name).Ok? <==> exists i :: 0 <= i < |schema| && schema[i].name == name
    decreases |schema|
  {
    if schema != [] && schema[0].name != name {
      var rest := schema[1..];
      FieldExistsIff(rest, name);
      if i :| 0 <= i < |rest| && rest[i].name == name {
        assert schema[i + 1].name == name;
      }
      if i :| 0 <= i < |schema| && schema[i].name == name {
        assert rest[i - 1].name == name;
      }
    }
  }

  lemma TypesExistStep(c: Context, rest: seq<Expression>, last: Expression)
    ensures TypesOf(c, rest + [last]).Ok? <==> TypesOf(c, rest).Ok? && TypeOf(c, last).Ok?
  {
    var es := rest + [last];
    assert es[..|es| - 1] == rest && es[|es| - 1] == last;
  }

  lemma {:induction false} TypesExistIff(c: Context, es: seq<Expression>)
    ensures TypesOf(c, es).Ok? <==> forall i :: 0 <= i < |es| ==> TypeOf(c, es[i]).Ok?
    decreases |es|
  {
    if es != [] {
      var rest, last := es[..|es| - 1], es[|es| - 1];
      TypesExistStep(c, rest, last);
      assert es == rest + [last];
      TypesExistIff(c, rest);
    }
  }

  /** Where the children have types, the node has one exactly when it is typable. */
  lemma NodeTypableIff(c: Context, e: Expression)
    requires TypesOf(c, Children(e)).Ok?
    ensures TypeOf(c, e).Ok? <==> NodeTypable(c, e)
  {
    if e.Column? {
      FieldExistsIff(c.schema, e.column);
    }
    if TypeOf(c, e).Ok? {
      var ts, t := TypesOf(c, Children(e)).value, TypeOf(c, e).value;
      ChildrenIff(c, e, ts);
      NodeTypeIff(c, e, ts, t);
    }
    if ts: seq<DataType>, t :| |ts| == |Children(e)| && ChildrenJudged(c, e, ts) && Rule(c, e, ts, t) {
      ChildrenIff(c, e, ts);
      NodeTypeIff(c, e, ts, t);
    }
  }

  ghost function TypableIn(c: Context): Expression -> bool
  {
    (e: Expression) => NodeTypable(c, e)
  }

  /** An expression has a type exactly when every subexpression of it, itself included, is typable. */
  lemma {:induction false} TypeExistsIff(c: Context, e: Expression)
    ensures TypeOf(c, e).Ok? <==> Everywhere(TypableIn(c), e)
    decreases e
  {
    var cs := Children(e);
    forall i | 0 <= i < |cs|
      ensures TypeOf(c, cs[i]).Ok? <==> Everywhere(TypableIn(c), cs[i])
    {
      TypeExistsIff(c, cs[i]);
    }
    EverywhereUnfold(TypableIn(c), e);
    TypesExistIff(c, cs);
    if TypesOf(c, cs).Ok? {
      NodeTypableIff(c, e);
    }
  }

  // ----- Values have their types -----

  type Has = (Value, DataType) -> bool

  /** Each value has the type beside it. */
  ghost predicate AllHave(has: Has, vs: seq<Value>, ts: seq<DataType>)
  {
    |vs| == |ts| && forall i :: 0 <= i < |vs| ==> has(vs[i], ts[i])
  }

  /** Columns, literals, casts and subqueries have the types given for them. */
  ghost predicate LeavesTyped(has: Has, s: Semantics, c: Context, row: Row)
  {
    && (forall name, t :: HasField(c.schema, name, t) ==> has(row(name), t))
    && (forall v, t :: has(s.literal(v, t), t))
    && (forall t, v :: has(s.cast(t, v), t))
    && (forall n, p, t :: IsArrays(c.factory, PlanSchema(c.factory, p), t) ==> has(s.subquery(n, p), t))
  }

  /** A function gives a value of its return type for as many arguments as it takes, of the argument types. */
  ghost predicate FunctionsTyped(has: Has, s: Semantics, l: Factory)
  {
    forall op, ts, vs, t ::
      AllHave(has, vs, ts) && TakesCount(l, op, |ts|) && l.returnType(op, ts) == Ok(t) ==> has(s.apply(op, vs), t)
  }

  ghost predicate FieldsHave(has: Has, vs: seq<Value>, fields: seq<Field>)
  {
    |vs| == |fields| && forall i :: 0 <= i < |vs| ==> has(vs[i], fields[i].dataType)
  }

  /** An aggregate gives a value of its type for arguments of its fields' types. */
  ghost predicate AggregatesTyped(has: Has, s: Semantics, l: Factory)
  {
    forall op, d, ps, fields: seq<Field>, vs, t ::
      FieldsHave(has, vs, fields) && l.aggregateType(op, d, ps, fields) == Ok(t)
      ==> has(s.aggregate(op, d, ps, vs), t)
  }

  lemma NodeSound(has: Has, s: Semantics, c: Context, row: Row, e: Expression, ts: seq<DataType>, t: DataType,
                  vs: seq<Value>)
    requires LeavesTyped(has, s, c, row) && FunctionsTyped(has, s, c.factory) && AggregatesTyped(has, s, c.factory)
    requires |ts| == |Children(e)| == |vs| && AllHave(has, vs, ts) && Rule(c, e, ts, t)
    ensures has(Apply(s, row, e, vs), t)
  {
  }

  /** The inferred type is the type of the value, for every expression that has one. */
  lemma {:induction false} TypeSound(has: Has, s: Semantics, c: Context, row: Row, e: Expression)
    requires LeavesTyped(has, s, c, row) && FunctionsTyped(has, s, c.factory) && AggregatesTyped(has, s, c.factory)
    requires TypeOf(c, e).Ok?
    ensures has(Eval(s, row, e), TypeOf(c, e).value)
    decreases e
  {
    var cs := Children(e);
    var ts := TypesOf(c, cs).value;
    TypesOfElements(c, cs);
    var vs := EvalAll(s, row, cs);
    forall i | 0 <= i < |cs|
      ensures has(vs[i], ts[i])
    {
      TypeSound(has, s, c, row, cs[i]);
    }
    EvalUnfold(s, row, e);
    NodeTypeIff(c, e, ts, TypeOf(c, e).value);
    NodeSound(has, s, c, row, e, ts, TypeOf(c, e).value, vs);
  }
}
