/**
  Compiling a list of expressions and running it on a block
  (query/src/pipelines/transforms/transform_expression_executor.rs), as projections do with aliases and
  filters and expression steps without (transform_projection.rs, transform_filter.rs, transform_expression.rs).
 */
module ExpressionTransform {
  import opened Wrappers
  import opened Expressions
  import opened DataTypes
  import opened ExpressionChain
  import opened ExpressionExecutor

  ghost function SetupOf(k: Compiler, v: Evaluator, row: Row, names: Row, block: ColumnMap): Setup
  {
    Setup(v, k.context.format, row, names, block, EmitterOf(k), Typed(k.context))
  }

  lemma SetupIsCorrect(k: Compiler, v: Evaluator, row: Row, names: Row, block: ColumnMap)
    ensures Correct(SetupOf(k, v, row, names, block))
  {
    CompilerIsWired(k);
    CompilerComputes(v.semantics, row, k);
  }

  // ----- Which outputs are found -----

  /** The names of all columns that an expression computes or reads, at every depth. */
  function NamesIn(fmt: Format, e: Expression): set<string>
    decreases Size(e), 0
  {
    NamesInAll(fmt, Children(e)) + if Nameable(e) then {ColumnName(fmt, e)} else {}
  }

  function NamesInAll(fmt: Format, es: seq<Expression>): set<string>
    decreases SizeAll(es), 1
  {
    if es == [] then {} else NamesIn(fmt, es[|es| - 1]) + NamesInAll(fmt, es[..|es| - 1])
  }

  lemma OwnNames(u: Setup, block: set<string>, e: Expression)
    requires Correct(u) && u.emit(e).Ok?
    ensures Available(block, u.emit(e).value) == block + if Nameable(e) then {ColumnName(u.format, e)} else {}
  {
    var own := u.emit(e).value;
    assert NodeComputes(u.evaluator.semantics, u.format, u.row, own, e);
    if Nameable(e) {
      assert own[0].name in Available(block, own);
    }
  }

  lemma {:induction false} EmitNames(u: Setup, block: set<string>, e: Expression)
    requires Correct(u) && Emit(u.emit, e).Ok?
    ensures Available(block, Emit(u.emit, e).value) == block + NamesIn(u.format, e)
    decreases Size(e), 0
  {
    EmitAllNames(u, block, Children(e));
    OwnNames(u, block, e);
    AvailableConcat(block, EmitAll(u.emit, Children(e)).value, u.emit(e).value);
  }

  lemma {:induction false} EmitAllNames(u: Setup, block: set<string>, es: seq<Expression>)
    requires Correct(u) && EmitAll(u.emit, es).Ok?
    ensures Available(block, EmitAll(u.emit, es).value) == block + NamesInAll(u.format, es)
    decreases SizeAll(es), 1
  {
    if es == [] {
      assert Available(block, []) == block;
    } else {
      EmitNames(u, block, es[|es| - 1]);
      EmitAllNames(u, block, es[..|es| - 1]);
      AvailableConcat(block, Emit(u.emit, es[|es| - 1]).value, EmitAll(u.emit, es[..|es| - 1]).value);
    }
  }

  /** A compiled list leaves exactly the block and the names in its expressions. */
  lemma {:induction false} ProgramNames(u: Setup, block: set<string>, exprs: seq<Expression>)
    requires Correct(u) && Program(u.emit, exprs).Ok?
    ensures Available(block, Program(u.emit, exprs).value) == block + NamesInAll(u.format, exprs)
    decreases |exprs|
  {
    if exprs == [] {
      assert Available(block, []) == block;
    } else {
      ProgramNames(u, block, exprs[..|exprs| - 1]);
      EmitNames(u, block, exprs[|exprs| - 1]);
      AvailableConcat(block, Program(u.emit, exprs[..|exprs| - 1]).value, Emit(u.emit, exprs[|exprs| - 1]).value);
    }
  }

  /**
    An output of a compiled list is found exactly when it is a column of the block, a name in the expressions
    or, if aliases are projected, one of theirs at any depth. Whether anything fails does not matter.
   */
  lemma FoundIff(u: Setup, exprs: seq<Expression>, aliasProject: bool, name: string)
    requires Correct(u) && Program(u.emit, exprs).Ok?
    ensures Found(u.block.Keys, Program(u.emit, exprs).value, aliasProject, name) <==>
            || name in u.block || name in NamesInAll(u.format, exprs)
            || (aliasProject && name in ProjectedAliases(exprs))
  {
    ProgramNames(u, u.block.Keys, exprs);
    ProgramAliases(u, exprs);
  }

  /** Names of a member are names of the list, and so are its aliases. */
  lemma {:induction false} MemberNames(fmt: Format, es: seq<Expression>, i: nat)
    requires i < |es|
    ensures NamesIn(fmt, es[i]) <= NamesInAll(fmt, es)
    ensures forall name :: name in AliasNames(es[i]) ==> name in ProjectedAliases(es)
    decreases |es|
  {
    if i < |es| - 1 {
      MemberNames(fmt, es[..|es| - 1], i);
    }
  }

  /** The name of an expression that leaves a column is among its names; any other but a wildcard's is an alias. */
  lemma {:induction false} OwnNameIn(fmt: Format, e: Expression)
    requires Valued(e)
    ensures Produced(e) ==> ColumnName(fmt, e) in NamesIn(fmt, e)
    ensures !Produced(e) ==> ColumnName(fmt, e) in AliasNames(e)
    decreases e
  {
    if e.Sort? {
      assert Children(e)[|Children(e)| - 1] == e.key && Children(e)[..0] == [];
      OwnNameIn(fmt, e.key);
    }
  }

  /**
    The names of the expressions as outputs: with aliases projected every one but a wildcard's is found, and
    without, every one that leaves a column; an alias then exactly if it is a column by chance.
   */
  lemma OwnOutputFound(u: Setup, exprs: seq<Expression>, aliasProject: bool, i: nat)
    requires Correct(u) && Program(u.emit, exprs).Ok? && i < |exprs| && Valued(exprs[i])
    ensures var name := ColumnName(u.format, exprs[i]);
            var found := Found(u.block.Keys, Program(u.emit, exprs).value, aliasProject, name);
            && (aliasProject || Produced(exprs[i]) ==> found)
            && (!aliasProject ==> (found <==> name in u.block || name in NamesInAll(u.format, exprs)))
  {
    FoundIff(u, exprs, aliasProject, ColumnName(u.format, exprs[i]));
    MemberNames(u.format, exprs, i);
    OwnNameIn(u.format, exprs[i]);
  }

  /** So with these outputs the missing-output error cannot happen. */
  lemma OwnOutputsFound(u: Setup, exprs: seq<Expression>, aliasProject: bool)
    requires Correct(u) && Program(u.emit, exprs).Ok?
    requires forall i :: 0 <= i < |exprs| ==> if aliasProject then Valued(exprs[i]) else Produced(exprs[i])
    ensures AllFound(u.block.Keys, Program(u.emit, exprs).value, aliasProject, ColumnNames(u.format, exprs))
  {
    forall i | 0 <= i < |exprs|
      ensures Found(u.block.Keys, Program(u.emit, exprs).value, aliasProject, ColumnName(u.format, exprs[i]))
    {
      if !aliasProject {
        ProducedIsValued(exprs[i]);
      }
      OwnOutputFound(u, exprs, aliasProject, i);
    }
  }

  // ----- Compile and run -----

  /** What stands under the name of an expression in the output. */
  ghost predicate IsOutput(u: Setup, exprs: seq<Expression>, aliasProject: bool, value: Value, e: Expression)
  {
    && (e.Alias? && Valued(e.aliased) ==>
          value == if aliasProject then Read(u, e.aliased) else u.names(e.alias))
    && (Produced(e) ==> (value == Read(u, e) <==> !aliasProject || NotShadowed(u, exprs, e)))
  }

  /** All that has to hold for compiled actions to give the outputs. */
  ghost predicate Executable(
      v: Evaluator, block: ColumnMap, actions: seq<Action>, aliasProject: bool, outputs: seq<string>)
  {
    Preparable(v, block, actions, aliasProject) && AllFound(block.Keys, actions, aliasProject, outputs)
  }

  /**
    Compile and run on a block. It succeeds exactly when the compiled list finds its columns, no evaluation
    fails, projected aliases fit and every output is found; and if `names` gives one value under each name,
    every output with the name of an expression has the value the executor reads for it.
   */
  method Transform(k: Compiler, v: Evaluator, exprs: seq<Expression>, block: ColumnMap, aliasProject: bool,
                   outputs: seq<string>, ghost row: Row, ghost names: Row)
    returns (r: Result<seq<Value>, ExecError>, compiled: bool)
    ensures compiled <==> Program(EmitterOf(k), exprs).Ok?
    ensures compiled ==>
              (r.Ok? <==> Executable(v, block, Program(EmitterOf(k), exprs).value, aliasProject, outputs))
    ensures compiled && r.Ok? ==> |r.value| == |outputs|
    ensures var u := SetupOf(k, v, row, names, block);
            compiled && r.Ok? && AllAgree(u, exprs) && Sound(block, names, block) ==>
              forall i, j :: 0 <= i < |exprs| && 0 <= j < |outputs| && outputs[j] == ColumnName(u.format, exprs[i]) ==>
                IsOutput(u, exprs, aliasProject, r.value[j], exprs[i])
  {
    var p := TryCreate(k, exprs);
    if p.Err? { return Err(MissingArgument), false; }
    compiled := true;
    ghost var found: Columns;
    r, found := Execute(v, block, p.value, aliasProject, outputs);
    ghost var u := SetupOf(k, v, row, names, block);
    SetupIsCorrect(k, v, row, names, block);
    if r.Ok? && AllAgree(u, exprs) && Sound(block, names, block) {
      forall i, j | 0 <= i < |exprs| && 0 <= j < |outputs| && outputs[j] == ColumnName(u.format, exprs[i])
        ensures IsOutput(u, exprs, aliasProject, r.value[j], exprs[i])
      {
        FoundIsOutput(u, exprs, aliasProject, found, i, r.value[j]);
      }
    }
  }

  lemma FoundIsOutput(
      u: Setup, exprs: seq<Expression>, aliasProject: bool, r: Columns, i: nat, value: Value)
    requires Correct(u) && Program(u.emit, exprs).Ok? && AllAgree(u, exprs) && Sound(u.block, u.names, u.block)
    requires IsResult(u.evaluator, u.block, Program(u.emit, exprs).value, aliasProject, r) && i < |exprs|
    requires r.Lookup(ColumnName(u.format, exprs[i])) == Some(value)
    ensures IsOutput(u, exprs, aliasProject, value, exprs[i])
  {
    var e := exprs[i];
    if aliasProject {
      if e.Alias? && Valued(e.aliased) {
        AliasIsProjected(u, exprs, r, i);
      }
      if Produced(e) {
        ExpressionIsProjectedIff(u, exprs, r, i);
      }
    } else {
      RunProgram(u, exprs);
      if Produced(e) {
        ProducedIsValued(e);
        NamedValue(u, e);
      }
    }
  }

  /** A block that suffices, no evaluation that fails, no projected alias name twice, and no clash of names. */
  ghost predicate Computable(
      k: Compiler, v: Evaluator, row: Row, block: ColumnMap, exprs: seq<Expression>, aliasProject: bool)
  {
    var names := ValueUnder(v.semantics, k.context.format, row, block, exprs);
    && AllReady(block.Keys, exprs) && NoClash(v.semantics, k.context.format, row, block, exprs)
    && (aliasProject ==> NoneTwice(ProjectedAliases(exprs)))
    && forall i :: 0 <= i < |exprs| ==> Evaluated(SetupOf(k, v, row, names, block), exprs[i])
  }

  /** A computable list succeeds with the names of its expressions as outputs, and its names have values. */
  lemma ComputableSucceeds(
      k: Compiler, v: Evaluator, row: Row, block: ColumnMap, exprs: seq<Expression>, aliasProject: bool)
    requires Program(EmitterOf(k), exprs).Ok? && Computable(k, v, row, block, exprs, aliasProject)
    requires forall i :: 0 <= i < |exprs| ==> if aliasProject then Valued(exprs[i]) else Produced(exprs[i])
    ensures Executable(v, block, Program(EmitterOf(k), exprs).value, aliasProject,
                       ColumnNames(k.context.format, exprs))
    ensures var names := ValueUnder(v.semantics, k.context.format, row, block, exprs);
            AllAgree(SetupOf(k, v, row, names, block), exprs) && Sound(block, names, block)
  {
    var names := ValueUnder(v.semantics, k.context.format, row, block, exprs);
    var u, p := SetupOf(k, v, row, names, block), Program(EmitterOf(k), exprs).value;
    SetupIsCorrect(k, v, row, names, block);
    NoClashGivesValues(v.semantics, k.context.format, row, block, exprs);
    ProgramRuns(u, exprs);
    RunIff(v, block, p);
    ProgramSucceedsIff(u, exprs);
    OwnOutputsFound(u, exprs, aliasProject);
  }

  /** Without aliases below the top, the values in the output are those of the expressions. */
  lemma ProjectionIsRight(u: Setup, exprs: seq<Expression>, aliasProject: bool, value: Value, i: nat)
    requires i < |exprs| && IsOutput(u, exprs, aliasProject, value, exprs[i])
    requires AliasFree(if exprs[i].Alias? then exprs[i].aliased else exprs[i])
    ensures aliasProject && exprs[i].Alias? && Valued(exprs[i].aliased) ==>
              value == Eval(u.evaluator.semantics, u.row, exprs[i])
    ensures Produced(exprs[i]) && (aliasProject ==> NotShadowed(u, exprs, exprs[i])) ==>
              value == Eval(u.evaluator.semantics, u.row, exprs[i])
  {
    var e := exprs[i];
    var body := if e.Alias? then e.aliased else e;
    AliasFreeHolds(u.evaluator.semantics, u.row, u.names, body);
    ReadingIsEval(u.evaluator.semantics, u.row, u.names, body);
    EvalUnfold(u.evaluator.semantics, u.row, e);
  }

  // ----- An alias at the top -----

  /**
    The failing input without projected aliases: an aliased column under its alias comes out exactly if the
    block happens to have a column of that name, and is then that column. With them it comes out whenever the
    column is there.
   */
  lemma TopAliasIff(k: Compiler, v: Evaluator, block: ColumnMap, alias: string, column: string)
    requires Program(EmitterOf(k), [Alias(alias, Column(column))]).Ok?
    ensures var p := Program(EmitterOf(k), [Alias(alias, Column(column))]).value;
            && (Executable(v, block, p, false, [alias]) <==> column in block && alias in block)
            && (Executable(v, block, p, true, [alias]) <==> column in block)
  {
    var a := Alias(alias, Column(column));
    var f := EmitterOf(k);
    OneExpression(f, a);
    OneChild(f, a, Column(column));
    assert Children(Column(column)) == [] && EmitAll(f, []) == Ok([]);
    TopAliasRun(v, block, Program(f, [a]).value, alias, column);
  }

  lemma TopAliasRun(v: Evaluator, block: ColumnMap, p: seq<Action>, alias: string, column: string)
    requires |p| == 2 && p[0].Input? && p[0].name == column
    requires p[1].AliasAction? && p[1].name == alias && p[1].argName == column
    ensures Executable(v, block, p, false, [alias]) <==> column in block && alias in block
    ensures Executable(v, block, p, true, [alias]) <==> column in block
  {
    TopAliasActions(block.Keys, p, alias, column);
    assert forall i :: 0 <= i < |p| ==> EvaluatesAfter(v, block, p[..i], p[i]);
    assert [alias][0] == alias;
  }

  lemma TopAliasActions(block: set<string>, p: seq<Action>, alias: string, column: string)
    requires |p| == 2 && p[0].Input? && p[0].name == column
    requires p[1].AliasAction? && p[1].name == alias && p[1].argName == column
    ensures Available(block, p) == block + {column} && ActionAliases(p) == [alias]
    ensures Runnable(block, p) <==> column in block
    ensures AliasesFit(block, p)
  {
    assert p[0].name in Available(block, p);
    assert p[..1] == [p[0]] && p[..0] == [] && p[..1][..0] == [];
    assert ActionAliases(p[..1]) == ActionAliases([]) + [] == [];
    assert Available(block, []) == block;
    assert CanStep(Available(block, p[..0]), p[0]) <==> column in block;
  }

  // ----- An alias below the top -----

  /**
    A function of an aliased column compiles, and then runs exactly when the column is there and so is one
    named as the alias on which the call succeeds, or one named as the whole expression; and it computes on
    the column named as the alias, whatever the aliased one holds.
   */
  lemma NestedAliasRunsIff(k: Compiler, v: Evaluator, block: ColumnMap, op: string, alias: string, column: string)
    requires Program(EmitterOf(k), [ScalarFunction(op, [Alias(alias, Column(column))])]).Ok?
    ensures var e := ScalarFunction(op, [Alias(alias, Column(column))]);
            var name := ColumnName(k.context.format, e);
            var r := Run(v, block, Program(EmitterOf(k), [e]).value);
            && (r.Ok? <==>
                  && column in block
                  && (name in block || (alias in block && v.calls(Named(op), [block[alias]]))))
            && (r.Ok? && name !in block ==> r.value == block[name := v.semantics.apply(op, [block[alias]])])
  {
    var e := ScalarFunction(op, [Alias(alias, Column(column))]);
    NestedAliasProgram(k, op, alias, column);
    NestedAliasRun(v, block, Program(EmitterOf(k), [e]).value, op);
  }

  lemma NestedAliasRun(v: Evaluator, block: ColumnMap, p: seq<Action>, op: string)
    requires |p| == 3 && p[0].Input? && p[1].AliasAction?
    requires p[2].Function? && p[2].call == Named(op) && p[2].argNames == [p[1].name]
    ensures var r := Run(v, block, p);
            && (r.Ok? <==>
                  && p[0].name in block
                  && (p[2].name in block || (p[1].name in block && v.calls(Named(op), [block[p[1].name]]))))
            && (r.Ok? && p[2].name !in block ==>
                  r.value == block[p[2].name := v.semantics.apply(op, [block[p[1].name]])])
  {
    assert p[..2] == p[..3][..2] && p[..1] == p[..2][..1] && p[..0] == [] && p[..3] == p;
    assert Run(v, block, p[..1]) == Step(v, block, p[0]);
    if p[0].name in block {
      assert Run(v, block, p[..2]) == Ok(block);
      assert p[2].argNames[0] == p[1].name;
      if p[1].name in block {
        assert ArgumentValues(block, p[2].argNames) == [block[p[1].name]];
      }
    }
  }

  lemma NestedAliasProgram(k: Compiler, op: string, alias: string, column: string)
    requires Program(EmitterOf(k), [ScalarFunction(op, [Alias(alias, Column(column))])]).Ok?
    ensures var e := ScalarFunction(op, [Alias(alias, Column(column))]);
            var p := Program(EmitterOf(k), [e]).value;
            && |p| == 3
            && p[0].Input? && p[0].name == column
            && p[1].AliasAction? && p[1].name == alias
            && p[2].Function? && p[2].name == ColumnName(k.context.format, e)
            && p[2].call == Named(op) && p[2].argNames == [alias]
  {
    var f, c := EmitterOf(k), Column(column);
    var a := Alias(alias, c);
    var e := ScalarFunction(op, [a]);
    OneExpression(f, e);
    OneChild(f, e, a);
    OneChild(f, a, c);
    assert Children(c) == [] && EmitAll(f, []) == Ok([]);
    NestedAliasActions(k, op, alias, column);
  }

  /** The actions of the three nodes. */
  lemma NestedAliasActions(k: Compiler, op: string, alias: string, column: string)
    requires NodeActions(k, Column(column)).Ok? && NodeActions(k, Alias(alias, Column(column))).Ok?
    requires NodeActions(k, ScalarFunction(op, [Alias(alias, Column(column))])).Ok?
    ensures var e := ScalarFunction(op, [Alias(alias, Column(column))]);
            var own, named, there := NodeActions(k, e).value, NodeActions(k, e.args[0]).value,
                                     NodeActions(k, Column(column)).value;
            && |there| == |named| == |own| == 1
            && there[0].Input? && there[0].name == column
            && named[0].AliasAction? && named[0].name == alias
            && own[0].Function? && own[0].name == ColumnName(k.context.format, e)
            && own[0].call == Named(op) && own[0].argNames == [alias]
  {
    var e := ScalarFunction(op, [Alias(alias, Column(column))]);
    assert ColumnNames(k.context.format, Children(e)) == [alias];
  }

  lemma OneExpression(f: Emitter, e: Expression)
    ensures Program(f, [e]) == Emit(f, e)
  {
    assert [e][..0] == [];
    var r := Emit(f, e);
    if r.Ok? {
      assert [] + r.value == r.value;
    }
  }

  lemma OneChild(f: Emitter, e: Expression, c: Expression)
    requires Children(e) == [c]
    ensures Emit(f, e).Ok? <==> Emit(f, c).Ok? && f(e).Ok?
    ensures Emit(f, e).Ok? ==> Emit(f, e).value == Emit(f, c).value + f(e).value
  {
    assert [c][..0] == [] && EmitAll(f, []) == Ok([]);
    var r := Emit(f, c);
    if r.Ok? {
      assert r.value + [] == r.value;
    }
  }
}
