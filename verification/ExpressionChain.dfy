/**
  Compilation of expressions to a straight-line list of actions
  (common/planners/src/plan_expression_chain.rs).
 */
module ExpressionChain {
  import opened Wrappers
  import opened Expressions
  import opened Visitor
  import opened DataTypes
  import opened TypeSoundness

  datatype Call = Named(func: string) | CastTo(target: DataType)

  datatype Action =
    | Input(name: string, returnType: DataType)
    | Constant(name: string, value: DataValue, dataType: DataType)
    | AliasAction(name: string, argName: string, argType: DataType)
    | Function(name: string, call: Call, argNames: seq<string>, returnType: DataType)

  /** Typing context plus the check that `CastFunction::create` makes of source and target type. */
  datatype Compiler = Compiler(context: Context, castable: (DataType, DataType) -> Result<(), string>)

  /** Argument types, first to last. */
  function ArgTypes(c: Context, es: seq<Expression>): (r: Result<seq<DataType>, PlanError>)
    ensures r.Ok? ==> |r.value| == |es| && forall i :: 0 <= i < |es| ==> TypeOf(c, es[i]) == Ok(r.value[i])
  {
    if es == [] then Ok([])
    else
      var t :- TypeOf(c, es[0]);
      var ts :- ArgTypes(c, es[1..]);
      Ok([t] + ts)
  }

  function ColumnNames(f: Format, es: seq<Expression>): (ns: seq<string>)
    ensures |ns| == |es| && forall i :: 0 <= i < |es| ==> ns[i] == ColumnName(f, es[i])
  {
    seq(|es|, i requires 0 <= i < |es| => ColumnName(f, es[i]))
  }

  function FunctionAction(k: Compiler, e: Expression, op: string): Result<seq<Action>, PlanError>
  {
    var ts :- ArgTypes(k.context, Children(e));
    var t :- FromFactory(k.context.factory.returnType(op, ts));
    Ok([Function(ColumnName(k.context.format, e), Named(op), ColumnNames(k.context.format, Children(e)), t)])
  }

  /** What `add_expr` pushes for one node. */
  function NodeActions(k: Compiler, e: Expression): Result<seq<Action>, PlanError>
  {
    var c := k.context;
    match e
    case Alias(name, sub) =>
      var t :- TypeOf(c, e);
      Ok([AliasAction(name, ColumnName(c.format, sub), t)])
    case Column(name) =>
      var t :- FindField(c.schema, name);
      Ok([Input(name, t)])
    case QualifiedColumn(_) => Err(UnresolvedColumn)
    case Literal(v, _, t) => Ok([Constant(ColumnName(c.format, e), v, t)])
    case Subquery(name, p) => Ok([Input(name, SubqueryType(c.factory, PlanSchema(c.factory, p)))])
    case ScalarSubquery(name, p) => Ok([Input(name, SubqueryType(c.factory, PlanSchema(c.factory, p)))])
    case Unary(op, _) => FunctionAction(k, e, op)
    case Binary(op, _, _) => FunctionAction(k, e, op)
    case ScalarFunction(op, _) => FunctionAction(k, e, op)
    case MapAccess(_, _) => FunctionAction(k, e, "get")
    case AggregateFunction(_, _, _, _) => Err(Unsupported)
    case Wildcard => Ok([])
    case Sort(_, _, _, _) => Ok([])
    case Cast(sub, t, _) =>
      var from :- TypeOf(c, sub);
      var _ :- FromFactory(k.castable(from, t));
      Ok([Function(ColumnName(c.format, e), CastTo(t), [ColumnName(c.format, sub)], t)])
  }

  /** The actions one node adds, as `add_expr` decides them. */
  type Emitter = Expression -> Result<seq<Action>, PlanError>

  function EmitterOf(k: Compiler): Emitter
  {
    (e: Expression) => NodeActions(k, e)
  }

  function AddExpr(f: Emitter, actions: seq<Action>, e: Expression): Result<seq<Action>, PlanError>
  {
    var more :- f(e);
    Ok(actions + more)
  }

  function ChainVisitor(f: Emitter): Visitor<seq<Action>, PlanError>
  {
    Visitor((actions: seq<Action>, e: Expression) => Ok(Continue(actions)),
            (actions: seq<Action>, e: Expression) => AddExpr(f, actions, e))
  }

  /** The actions of an expression: those of its children, last child first, then its own. */
  function Emit(f: Emitter, e: Expression): Result<seq<Action>, PlanError>
    decreases Size(e), 0
  {
    var args :- EmitAll(f, Children(e));
    AddExpr(f, args, e)
  }

  function EmitAll(f: Emitter, es: seq<Expression>): Result<seq<Action>, PlanError>
    decreases SizeAll(es), 1
  {
    if es == [] then Ok([])
    else
      var last :- Emit(f, es[|es| - 1]);
      var rest :- EmitAll(f, es[..|es| - 1]);
      Ok(last + rest)
  }

  function Appended(actions: seq<Action>, r: Result<seq<Action>, PlanError>): Result<seq<Action>, PlanError>
  {
    match r case Ok(more) => Ok(actions + more) case Err(x) => Err(x)
  }

  lemma ChainNode(f: Emitter, actions: seq<Action>, e: Expression, args: Result<seq<Action>, PlanError>)
    requires WalkLastFirst(ChainVisitor(f), actions, Children(e)) == Appended(actions, args)
    ensures Walk(ChainVisitor(f), actions, e) == Appended(actions, if args.Ok? then AddExpr(f, args.value, e) else args)
  {
    var own := f(e);
    if args.Ok? && own.Ok? {
      assert actions + args.value + own.value == actions + (args.value + own.value);
    }
  }

  lemma ChainList(f: Emitter, actions: seq<Action>, last: Expression, rest: seq<Expression>,
                  r: Result<seq<Action>, PlanError>, q: Result<seq<Action>, PlanError>)
    requires Walk(ChainVisitor(f), actions, last) == Appended(actions, r)
    requires r.Ok? ==> WalkLastFirst(ChainVisitor(f), actions + r.value, rest) == Appended(actions + r.value, q)
    ensures WalkLastFirst(ChainVisitor(f), actions, rest + [last])
            == Appended(actions, if r.Err? then r else if q.Err? then q else Ok(r.value + q.value))
  {
    var es := rest + [last];
    assert es[|es| - 1] == last && es[..|es| - 1] == rest;
    if r.Ok? && q.Ok? {
      assert actions + r.value + q.value == actions + (r.value + q.value);
    }
  }

  lemma {:induction false} ChainWalk(f: Emitter, actions: seq<Action>, e: Expression)
    ensures Walk(ChainVisitor(f), actions, e) == Appended(actions, Emit(f, e))
    decreases Size(e), 0
  {
    ChainWalkAll(f, actions, Children(e));
    ChainNode(f, actions, e, EmitAll(f, Children(e)));
  }

  lemma {:induction false} ChainWalkAll(f: Emitter, actions: seq<Action>, es: seq<Expression>)
    ensures WalkLastFirst(ChainVisitor(f), actions, es) == Appended(actions, EmitAll(f, es))
    decreases SizeAll(es), 1
  {
    if es == [] {
      assert actions + [] == actions;
    } else {
      var last, rest := es[|es| - 1], es[..|es| - 1];
      var r, q := Emit(f, last), EmitAll(f, rest);
      ChainWalk(f, actions, last);
      if r.Ok? {
        ChainWalkAll(f, actions + r.value, rest);
      }
      ChainList(f, actions, last, rest, r, q);
      assert rest + [last] == es;
    }
  }

  /** The whole program, expression by expression. */
  function Program(f: Emitter, exprs: seq<Expression>): Result<seq<Action>, PlanError>
  {
    if exprs == [] then Ok([])
    else
      var before :- Program(f, exprs[..|exprs| - 1]);
      var more :- Emit(f, exprs[|exprs| - 1]);
      Ok(before + more)
  }

  class Chain {
    const emitter: Emitter
    var actions: seq<Action>

    constructor (f: Emitter)
      ensures emitter == f && actions == []
    {
      emitter := f;
      actions := [];
    }

    /** `recursion_add_expr`: the visitor pushes onto the chain as it goes. */
    method RecursionAddExpr(e: Expression) returns (r: Result<(), PlanError>)
      modifies this
      ensures r.Ok? <==> Emit(emitter, e).Ok?
      ensures r.Ok? ==> actions == old(actions) + Emit(emitter, e).value
      ensures r.Err? ==> r.error == Emit(emitter, e).error
    {
      var w := Visit(ChainVisitor(emitter), actions, e);
      ChainWalk(emitter, actions, e);
      if w.Err? { return Err(w.error); }
      actions := w.value;
      r := Ok(());
    }
  }

  /** `ExpressionChain::try_create`. */
  method TryCreate(k: Compiler, exprs: seq<Expression>) returns (r: Result<seq<Action>, PlanError>)
    ensures r == Program(EmitterOf(k), exprs)
    ensures r.Ok? <==> Compiles(k, exprs)
  {
    r := CreateWith(EmitterOf(k), exprs);
    CompilesIff(k, exprs);
  }

  method CreateWith(f: Emitter, exprs: seq<Expression>) returns (r: Result<seq<Action>, PlanError>)
    ensures r == Program(f, exprs)
  {
    var chain := new Chain(f);
    for i := 0 to |exprs|
      invariant chain.emitter == f
      invariant Program(f, exprs[..i]) == Ok(chain.actions)
    {
      assert exprs[..i + 1][..i] == exprs[..i];
      var added := chain.RecursionAddExpr(exprs[i]);
      if added.Err? {
        ProgramStops(f, exprs, i);
        return Err(added.error);
      }
    }
    assert exprs[..|exprs|] == exprs;
    r := Ok(chain.actions);
  }

  lemma ProgramMore(f: Emitter, rest: seq<Expression>, last: Expression)
    ensures Program(f, rest + [last])
         == match Program(f, rest) case Err(x) => Err(x) case Ok(before) => Appended(before, Emit(f, last))
  {
    var exprs := rest + [last];
    assert exprs[..|exprs| - 1] == rest && exprs[|exprs| - 1] == last;
  }

  lemma {:induction false} ProgramStops(f: Emitter, exprs: seq<Expression>, i: nat)
    requires i < |exprs| && Program(f, exprs[..i]).Ok? && Emit(f, exprs[i]).Err?
    ensures Program(f, exprs) == Err(Emit(f, exprs[i]).error)
    decreases |exprs|
  {
    var rest, last := exprs[..|exprs| - 1], exprs[|exprs| - 1];
    assert exprs == rest + [last];
    ProgramMore(f, rest, last);
    if i < |rest| {
      assert rest[..i] == exprs[..i];
      ProgramStops(f, rest, i);
    }
  }

  // ----- What compiles -----

  /** What a node needs in order to compile, given its subexpressions. */
  ghost predicate NodeCompiles(k: Compiler, e: Expression)
  {
    match e
    case QualifiedColumn(_) => false
    case AggregateFunction(_, _, _, _) => false
    case Column(name) => exists i :: 0 <= i < |k.context.schema| && k.context.schema[i].name == name
    case Alias(_, _) => exists t :: Judged(k.context, e, t)
    case Cast(sub, t, _) => exists from :: Judged(k.context, sub, from) && k.castable(from, t).Ok?
    case Literal(_, _, _) => true
    case Subquery(_, _) => true
    case ScalarSubquery(_, _) => true
    case Wildcard => true
    case Sort(_, _, _, _) => true
    case _ => FunctionAccepts(k.context, e)
  }

  /** The function accepts the types of its arguments; how many it takes is not asked. */
  ghost predicate FunctionAccepts(c: Context, e: Expression)
    requires FunctionName(e).Some?
  {
    exists ts: seq<DataType> ::
      && |ts| == |Children(e)| && ChildrenJudged(c, e, ts)
      && c.factory.returnType(FunctionName(e).value, ts).Ok?
  }

  /** Every subexpression of every expression compiles. */
  ghost predicate Compiles(k: Compiler, exprs: seq<Expression>)
  {
    forall i, x :: 0 <= i < |exprs| && Below(x, exprs[i]) ==> NodeCompiles(k, x)
  }

  lemma {:induction false} ArgTypesIff(c: Context, es: seq<Expression>, ts: seq<DataType>)
    requires |ts| == |es|
    ensures ArgTypes(c, es) == Ok(ts) <==> forall i :: 0 <= i < |es| ==> TypeOf(c, es[i]) == Ok(ts[i])
    decreases |es|
  {
    if es != [] {
      ArgTypesIff(c, es[1..], ts[1..]);
      assert ts == [ts[0]] + ts[1..];
      assert forall i :: 0 < i < |es| ==> es[i] == es[1..][i - 1] && ts[i] == ts[1..][i - 1];
    }
  }

  lemma FunctionActionIff(k: Compiler, e: Expression)
    requires FunctionName(e).Some?
    ensures FunctionAction(k, e, FunctionName(e).value).Ok? <==> FunctionAccepts(k.context, e)
  {
    var c, cs := k.context, Children(e);
    forall ts: seq<DataType> | |ts| == |cs|
      ensures ArgTypes(c, cs) == Ok(ts) <==> ChildrenJudged(c, e, ts)
    {
      ArgTypesIff(c, cs, ts);
      TypesOfIff(c, cs, ts);
      ChildrenIff(c, e, ts);
    }
  }

  lemma NodeActionsIff(k: Compiler, e: Expression)
    ensures NodeActions(k, e).Ok? <==> NodeCompiles(k, e)
  {
    var c := k.context;
    if FunctionName(e).Some? {
      FunctionActionIff(k, e);
    } else if e.Column? {
      FieldExistsIff(c.schema, e.column);
    } else if e.Alias? {
      forall t ensures TypeOf(c, e) == Ok(t) <==> Judged(c, e, t) {
        TypeIff(c, e, t);
      }
    } else if e.Cast? {
      forall t ensures TypeOf(c, e.source) == Ok(t) <==> Judged(c, e.source, t) {
        TypeIff(c, e.source, t);
      }
    }
  }

  lemma EmitStep(f: Emitter, rest: seq<Expression>, last: Expression)
    ensures EmitAll(f, rest + [last]).Ok? <==> EmitAll(f, rest).Ok? && Emit(f, last).Ok?
    ensures Program(f, rest + [last]).Ok? <==> Program(f, rest).Ok? && Emit(f, last).Ok?
  {
    var es := rest + [last];
    assert es[..|es| - 1] == rest && es[|es| - 1] == last;
  }

  lemma {:induction false} EmitAllOk(f: Emitter, es: seq<Expression>)
    ensures EmitAll(f, es).Ok? <==> forall i :: 0 <= i < |es| ==> Emit(f, es[i]).Ok?
    decreases |es|
  {
    if es != [] {
      var rest, last := es[..|es| - 1], es[|es| - 1];
      EmitStep(f, rest, last);
      assert es == rest + [last];
      EmitAllOk(f, rest);
    }
  }

  ghost function Emittable(f: Emitter): Expression -> bool
  {
    (e: Expression) => f(e).Ok?
  }

  /** An expression is emitted exactly when every node of it is. */
  lemma {:induction false} EmitIff(f: Emitter, e: Expression)
    ensures Emit(f, e).Ok? <==> Everywhere(Emittable(f), e)
    decreases e
  {
    var cs := Children(e);
    forall i | 0 <= i < |cs|
      ensures Emit(f, cs[i]).Ok? <==> Everywhere(Emittable(f), cs[i])
    {
      EmitIff(f, cs[i]);
    }
    EverywhereUnfold(Emittable(f), e);
    EmitAllOk(f, cs);
  }

  lemma {:induction false} ProgramOk(f: Emitter, exprs: seq<Expression>)
    ensures Program(f, exprs).Ok? <==> forall i :: 0 <= i < |exprs| ==> Emit(f, exprs[i]).Ok?
    decreases |exprs|
  {
    if exprs != [] {
      var rest, last := exprs[..|exprs| - 1], exprs[|exprs| - 1];
      EmitStep(f, rest, last);
      assert exprs == rest + [last];
      ProgramOk(f, rest);
    }
  }

  /** Compilation succeeds exactly where every node of every expression compiles. */
  lemma CompilesIff(k: Compiler, exprs: seq<Expression>)
    ensures Program(EmitterOf(k), exprs).Ok? <==> Compiles(k, exprs)
  {
    var f := EmitterOf(k);
    ProgramOk(f, exprs);
    forall x ensures Emittable(f)(x) <==> NodeCompiles(k, x) {
      NodeActionsIff(k, x);
    }
    forall i | 0 <= i < |exprs|
      ensures Emit(f, exprs[i]).Ok? <==> Everywhere(Emittable(f), exprs[i])
    {
      EmitIff(f, exprs[i]);
    }
  }

  /** The type an action declares for its result. */
  function ResultType(a: Action): DataType
  {
    match a
    case Input(_, t) => t
    case Constant(_, _, t) => t
    case AliasAction(_, _, t) => t
    case Function(_, _, _, t) => t
  }

  lemma FunctionResult(k: Compiler, e: Expression, ts: seq<DataType>)
    requires FunctionName(e).Some? && FunctionAction(k, e, FunctionName(e).value).Ok?
    requires TypesOf(k.context, Children(e)) == Ok(ts)
    ensures var own := FunctionAction(k, e, FunctionName(e).value).value;
            |own| == 1 && k.context.factory.returnType(FunctionName(e).value, ts) == Ok(ResultType(own[0]))
  {
    TypesOfElements(k.context, Children(e));
    ArgTypesIff(k.context, Children(e), ts);
  }

  lemma FunctionNode(k: Compiler, e: Expression)
    requires FunctionName(e).Some?
    ensures NodeActions(k, e) == FunctionAction(k, e, FunctionName(e).value)
  {
  }

  lemma FunctionRule(c: Context, e: Expression, ts: seq<DataType>, t: DataType)
    requires FunctionName(e).Some? && |ts| == |Children(e)| && NodeType(c, e, ts) == Ok(t)
    ensures c.factory.returnType(FunctionName(e).value, ts) == Ok(t)
  {
    NodeTypeIff(c, e, ts, t);
  }

  /** A node adds at most one action; it declares the node's type where the rules give the node one. */
  lemma ActionsHaveTypes(k: Compiler, e: Expression, t: DataType)
    requires NodeActions(k, e).Ok? && Judged(k.context, e, t)
    ensures |NodeActions(k, e).value| <= 1 && (NodeActions(k, e).value == [] ==> e.Sort?)
    ensures forall a :: a in NodeActions(k, e).value ==> ResultType(a) == t
  {
    var c := k.context;
    TypeIff(c, e, t);
    var ts := TypesOf(c, Children(e)).value;
    if FunctionName(e).Some? {
      FunctionNode(k, e);
      FunctionRule(c, e, ts, t);
      FunctionResult(k, e, ts);
    } else {
      OtherResult(k, e, ts, t);
    }
  }

  lemma OtherResult(k: Compiler, e: Expression, ts: seq<DataType>, t: DataType)
    requires NodeActions(k, e).Ok? && FunctionName(e).None?
    requires TypeOf(k.context, e) == Ok(t)
    requires |ts| == |Children(e)| && NodeType(k.context, e, ts) == Ok(t)
    ensures |NodeActions(k, e).value| <= 1 && (NodeActions(k, e).value == [] ==> e.Sort?)
    ensures forall a :: a in NodeActions(k, e).value ==> ResultType(a) == t
  {
  }

  // ----- Straight-line programs -----

  function Arguments(a: Action): seq<string>
  {
    match a
    case AliasAction(_, arg, _) => [arg]
    case Function(_, _, args, _) => args
    case _ => []
  }

  ghost predicate Produces(actions: seq<Action>, name: string)
  {
    exists j :: 0 <= j < |actions| && actions[j].name == name
  }

  /** Every argument is the name of an earlier action. */
  ghost predicate StraightLine(actions: seq<Action>)
  {
    forall k, n :: 0 <= k < |actions| && n in Arguments(actions[k]) ==> Produces(actions[..k], n)
  }

  /** What is needed of an emitter; `typed` are the expressions that have a type. */
  ghost predicate Wired(f: Emitter, fmt: Format, typed: Expression -> bool)
  {
    forall e :: f(e).Ok? ==> NodeWired(f(e).value, fmt, typed, e)
  }

  ghost predicate NodeWired(own: seq<Action>, fmt: Format, typed: Expression -> bool, e: Expression)
  {
    && |own| <= 1
    && (own != [] ==> forall i :: 0 <= i < |Children(e)| ==> typed(Children(e)[i]))
    && (own != [] ==> forall n :: n in Arguments(own[0]) ==> IsChild(fmt, e, n))
    && (typed(e) ==> if e.Sort? then typed(e.key) else own != [] && own[0].name == ColumnName(fmt, e))
  }

  ghost predicate IsChild(fmt: Format, e: Expression, n: string)
  {
    exists i :: 0 <= i < |Children(e)| && n == ColumnName(fmt, Children(e)[i])
  }

  ghost function Typed(c: Context): Expression -> bool
  {
    (e: Expression) => TypeOf(c, e).Ok?
  }

  lemma FunctionIsWired(k: Compiler, e: Expression, op: string)
    requires FunctionAction(k, e, op).Ok?
    ensures var own := FunctionAction(k, e, op).value;
            && |own| == 1 && own[0].name == ColumnName(k.context.format, e)
            && (forall i :: 0 <= i < |Children(e)| ==> Typed(k.context)(Children(e)[i]))
            && forall n :: n in Arguments(own[0]) ==> IsChild(k.context.format, e, n)
  {
    var c, cs := k.context, Children(e);
    var names := ColumnNames(c.format, cs);
    forall n | n in names ensures IsChild(c.format, e, n) {
      var i :| 0 <= i < |names| && names[i] == n;
    }
    assert ArgTypes(c, cs).Ok?;
  }

  lemma CompilerIsWired(k: Compiler)
    ensures Wired(EmitterOf(k), k.context.format, Typed(k.context))
  {
    var c := k.context;
    forall e | EmitterOf(k)(e).Ok? ensures NodeWired(EmitterOf(k)(e).value, c.format, Typed(c), e) {
      NodeIsWired(k, e);
    }
  }

  /** A typed node over one child has a typed child. */
  lemma OnlyChildIsTyped(c: Context, e: Expression)
    requires TypeOf(c, e).Ok? && |Children(e)| == 1
    ensures TypeOf(c, Children(e)[0]).Ok?
  {
    TypesOfElement(c, Children(e), 0);
  }

  lemma WrapperIsWired(k: Compiler, e: Expression)
    requires NodeActions(k, e).Ok? && (e.Alias? || e.Cast? || e.Sort?)
    ensures NodeWired(NodeActions(k, e).value, k.context.format, Typed(k.context), e)
  {
    var c, cs := k.context, Children(e);
    if TypeOf(c, e).Ok? {
      OnlyChildIsTyped(c, e);
    }
    assert IsChild(c.format, e, ColumnName(c.format, cs[0]));
  }

  lemma NodeIsWired(k: Compiler, e: Expression)
    requires NodeActions(k, e).Ok?
    ensures NodeWired(NodeActions(k, e).value, k.context.format, Typed(k.context), e)
  {
    var c := k.context;
    if e.Unary? {
      FunctionIsWired(k, e, e.unaryOp);
    } else if e.Binary? {
      FunctionIsWired(k, e, e.binaryOp);
    } else if e.ScalarFunction? {
      FunctionIsWired(k, e, e.op);
    } else if e.MapAccess? {
      FunctionIsWired(k, e, "get");
    } else if e.Alias? || e.Cast? || e.Sort? {
      WrapperIsWired(k, e);
    } else {
      assert e.Wildcard? ==> !Typed(c)(e);
    }
  }

  lemma ProducesMore(a: seq<Action>, b: seq<Action>, name: string)
    requires Produces(a, name) || Produces(b, name)
    ensures Produces(a + b, name)
  {
    if j :| 0 <= j < |a| && a[j].name == name {
      assert (a + b)[j].name == name;
    } else {
      var i :| 0 <= i < |b| && b[i].name == name;
      assert (a + b)[|a| + i].name == name;
    }
  }

  lemma StraightLineConcat(a: seq<Action>, b: seq<Action>)
    requires StraightLine(a) && StraightLine(b)
    ensures StraightLine(a + b)
  {
    var ab := a + b;
    forall k, n | 0 <= k < |ab| && n in Arguments(ab[k]) ensures Produces(ab[..k], n) {
      if k < |a| {
        assert ab[..k] == a[..k];
      } else {
        assert ab[..k] == a + b[..k - |a|];
        ProducesMore(a, b[..k - |a|], n);
      }
    }
  }

  /** An expression that has a type leaves an action named after it. */
  lemma {:induction false} TypedIsProduced(f: Emitter, fmt: Format, typed: Expression -> bool, e: Expression)
    requires Wired(f, fmt, typed) && typed(e) && Emit(f, e).Ok?
    ensures Produces(Emit(f, e).value, ColumnName(fmt, e))
    decreases e
  {
    var cs, own := Children(e), f(e).value;
    assert NodeWired(own, fmt, typed, e);
    var args := EmitAll(f, cs).value;
    if e.Sort? {
      assert cs[..0] == [] && EmitAll(f, []) == Ok([]);
      TypedIsProduced(f, fmt, typed, cs[0]);
      ProducesMore(Emit(f, cs[0]).value, [], ColumnName(fmt, e));
    } else {
      assert Produces(own, ColumnName(fmt, e)) by { assert own[0].name == ColumnName(fmt, e); }
    }
    ProducesMore(args, own, ColumnName(fmt, e));
  }

  lemma {:induction false} ArgumentsProduced(f: Emitter, fmt: Format, typed: Expression -> bool, es: seq<Expression>,
                                             i: nat)
    requires Wired(f, fmt, typed) && EmitAll(f, es).Ok? && i < |es| && typed(es[i])
    ensures Produces(EmitAll(f, es).value, ColumnName(fmt, es[i]))
    decreases |es|
  {
    var n := |es| - 1;
    if i == n {
      TypedIsProduced(f, fmt, typed, es[i]);
    } else {
      ArgumentsProduced(f, fmt, typed, es[..n], i);
    }
    ProducesMore(Emit(f, es[n]).value, EmitAll(f, es[..n]).value, ColumnName(fmt, es[i]));
  }

  lemma {:induction false} EmitIsStraightLine(f: Emitter, fmt: Format, typed: Expression -> bool, e: Expression)
    requires Wired(f, fmt, typed) && Emit(f, e).Ok?
    ensures StraightLine(Emit(f, e).value)
    decreases Size(e), 0
  {
    var cs := Children(e);
    EmitAllIsStraightLine(f, fmt, typed, cs);
    var args, own := EmitAll(f, cs).value, f(e).value;
    assert NodeWired(own, fmt, typed, e);
    var all := args + own;
    forall j, n | 0 <= j < |all| && n in Arguments(all[j]) ensures Produces(all[..j], n) {
      if j < |args| {
        assert all[..j] == args[..j];
      } else {
        assert all[..j] == args && all[j] == own[0];
        assert IsChild(fmt, e, n);
        var i :| 0 <= i < |cs| && n == ColumnName(fmt, cs[i]);
        ArgumentsProduced(f, fmt, typed, cs, i);
      }
    }
  }

  lemma {:induction false} EmitAllIsStraightLine(f: Emitter, fmt: Format, typed: Expression -> bool,
                                                 es: seq<Expression>)
    requires Wired(f, fmt, typed) && EmitAll(f, es).Ok?
    ensures StraightLine(EmitAll(f, es).value)
    decreases SizeAll(es), 1
  {
    if es != [] {
      EmitIsStraightLine(f, fmt, typed, es[|es| - 1]);
      EmitAllIsStraightLine(f, fmt, typed, es[..|es| - 1]);
      StraightLineConcat(Emit(f, es[|es| - 1]).value, EmitAll(f, es[..|es| - 1]).value);
    }
  }

  lemma {:induction false} WiredProgramIsStraightLine(f: Emitter, fmt: Format, typed: Expression -> bool,
                                                      exprs: seq<Expression>)
    requires Wired(f, fmt, typed) && Program(f, exprs).Ok?
    ensures StraightLine(Program(f, exprs).value)
    decreases |exprs|
  {
    if exprs != [] {
      var n := |exprs| - 1;
      WiredProgramIsStraightLine(f, fmt, typed, exprs[..n]);
      EmitIsStraightLine(f, fmt, typed, exprs[n]);
      StraightLineConcat(Program(f, exprs[..n]).value, Emit(f, exprs[n]).value);
    }
  }

  /** Whatever compiles is a straight-line program. */
  lemma ProgramIsStraightLine(k: Compiler, exprs: seq<Expression>)
    requires Program(EmitterOf(k), exprs).Ok?
    ensures StraightLine(Program(EmitterOf(k), exprs).value)
  {
    CompilerIsWired(k);
    WiredProgramIsStraightLine(EmitterOf(k), k.context.format, Typed(k.context), exprs);
  }
}
