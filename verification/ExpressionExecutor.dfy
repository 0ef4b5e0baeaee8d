/**
  `ExpressionExecutor::execute` (query/src/pipelines/transforms/transform_expression_executor.rs):
  runs a compiled chain over the columns of a block, and picks the columns of its output schema.
  A column is represented by one value.
 */
module ExpressionExecutor {
  import opened Wrappers
  import opened Expressions
  import opened DataTypes
  import opened ExpressionChain

  datatype ExecError =
    | MissingInput(name: string)
    | MissingArgument
    | FailedConstant(name: string)
    | FailedCall(name: string)
    | MissingAliasArgument
    | DuplicateAlias(name: string)
    | MissingOutput(name: string)

  type ColumnMap = map<string, Value>

  /** What functions and constants give, and which of their evaluations succeed. */
  datatype Evaluator = Evaluator(
    semantics: Semantics, calls: (Call, seq<Value>) -> bool, constants: (DataValue, DataType) -> bool)

  function CallValue(s: Semantics, call: Call, vs: seq<Value>): Value
    requires call.CastTo? ==> |vs| == 1
  {
    match call
    case Named(op) => s.apply(op, vs)
    case CastTo(t) => s.cast(t, vs[0])
  }

  predicate HasArguments(columns: set<string>, call: Call, args: seq<string>)
  {
    (forall i :: 0 <= i < |args| ==> args[i] in columns) && (call.CastTo? ==> |args| == 1)
  }

  function ArgumentValues(m: ColumnMap, args: seq<string>): (vs: seq<Value>)
    requires forall i :: 0 <= i < |args| ==> args[i] in m
    ensures |vs| == |args|
  {
    seq(|args|, i requires 0 <= i < |args| => m[args[i]])
  }

  /** The loop body on the column map: a name that is already there is not computed again. */
  function Step(v: Evaluator, m: ColumnMap, a: Action): Result<ColumnMap, ExecError>
  {
    if a.name in m then Ok(m)
    else
      match a
      case Input(name, _) => Err(MissingInput(name))
      case Constant(name, c, t) =>
        if v.constants(c, t) then Ok(m[name := v.semantics.literal(c, t)]) else Err(FailedConstant(name))
      case AliasAction(_, _, _) => Ok(m)
      case Function(name, call, args, _) =>
        if !HasArguments(m.Keys, call, args) then Err(MissingArgument)
        else if v.calls(call, ArgumentValues(m, args)) then
          Ok(m[name := CallValue(v.semantics, call, ArgumentValues(m, args))])
        else Err(FailedCall(name))
  }

  function Run(v: Evaluator, m: ColumnMap, actions: seq<Action>): Result<ColumnMap, ExecError>
  {
    if actions == [] then Ok(m)
    else
      var m1 :- Run(v, m, actions[..|actions| - 1]);
      Step(v, m1, actions[|actions| - 1])
  }

  lemma {:induction false} RunConcat(v: Evaluator, m: ColumnMap, a: seq<Action>, b: seq<Action>)
    ensures Run(v, m, a + b) == match Run(v, m, a) case Ok(m1) => Run(v, m1, b) case Err(x) => Err(x)
    decreases |b|
  {
    if b == [] {
      assert a + b == a;
    } else {
      assert (a + b)[..|a + b| - 1] == a + b[..|b| - 1];
      RunConcat(v, m, a, b[..|b| - 1]);
    }
  }

  lemma {:induction false} RunStops(v: Evaluator, m: ColumnMap, actions: seq<Action>, i: nat)
    requires i < |actions| && Run(v, m, actions[..i + 1]).Err?
    ensures Run(v, m, actions) == Run(v, m, actions[..i + 1])
    decreases |actions|
  {
    var n := |actions| - 1;
    if i < n {
      assert actions[..n][..i + 1] == actions[..i + 1];
      RunStops(v, m, actions[..n], i);
    } else {
      assert actions[..i + 1] == actions;
    }
  }

  // ----- Which lists run -----

  /** The columns there are after a list has run: those of the block and of every action that is not an alias. */
  ghost function Available(block: set<string>, actions: seq<Action>): set<string>
  {
    block + set i | 0 <= i < |actions| && !actions[i].AliasAction? :: actions[i].name
  }

  /** An action runs where these columns are: its own is there, or it can be computed. */
  predicate CanStep(columns: set<string>, a: Action)
  {
    || a.name in columns
    || a.Constant? || a.AliasAction?
    || (a.Function? && HasArguments(columns, a.call, a.argNames))
  }

  /** Every action finds what it needs in the block or among the columns of earlier actions. */
  ghost predicate Runnable(block: set<string>, actions: seq<Action>)
  {
    forall i :: 0 <= i < |actions| ==> CanStep(Available(block, actions[..i]), actions[i])
  }

  lemma AvailableMore(block: set<string>, before: seq<Action>, a: Action)
    ensures Available(block, before + [a]) == Available(block, before) + if a.AliasAction? then {} else {a.name}
  {
    var all := before + [a];
    forall i | 0 <= i < |before| && !before[i].AliasAction?
      ensures before[i].name in Available(block, all)
    {
      assert all[i] == before[i];
    }
    if !a.AliasAction? {
      assert all[|before|] == a;
    }
  }

  lemma RunnableMore(block: set<string>, before: seq<Action>, a: Action)
    ensures Runnable(block, before + [a]) <==> Runnable(block, before) && CanStep(Available(block, before), a)
  {
    var all := before + [a];
    assert all[..|before|] == before && all[|before|] == a;
    assert forall i :: 0 <= i < |before| ==> all[..i] == before[..i] && all[i] == before[i];
  }

  // ----- Which evaluations fail -----

  ghost predicate IsSure(v: Evaluator)
  {
    (forall call, vs :: v.calls(call, vs)) && (forall c, t :: v.constants(c, t))
  }

  /** The same values, with no evaluation failing. */
  function Sure(v: Evaluator): Evaluator
  {
    v.(calls := (call: Call, vs: seq<Value>) => true, constants := (c: DataValue, t: DataType) => true)
  }

  /** The evaluation that the action makes on these columns, if it makes one, succeeds. */
  predicate Evaluates(v: Evaluator, m: ColumnMap, a: Action)
  {
    a.name !in m ==>
      && (a.Constant? ==> v.constants(a.value, a.dataType))
      && (a.Function? && HasArguments(m.Keys, a.call, a.argNames) ==> v.calls(a.call, ArgumentValues(m, a.argNames)))
  }

  predicate EvaluatesAfter(v: Evaluator, block: ColumnMap, before: seq<Action>, a: Action)
  {
    Run(Sure(v), block, before).Ok? ==> Evaluates(v, Run(Sure(v), block, before).value, a)
  }

  /** No action fails on the values that it is given where no earlier one does. */
  ghost predicate NoneFails(v: Evaluator, block: ColumnMap, actions: seq<Action>)
  {
    forall i :: 0 <= i < |actions| ==> EvaluatesAfter(v, block, actions[..i], actions[i])
  }

  lemma StepIff(v: Evaluator, m: ColumnMap, a: Action)
    ensures Step(v, m, a).Ok? <==> CanStep(m.Keys, a) && Evaluates(v, m, a)
    ensures Step(v, m, a).Ok? ==> Step(v, m, a) == Step(Sure(v), m, a)
    ensures Step(v, m, a).Ok? ==> Step(v, m, a).value.Keys == m.Keys + if a.AliasAction? then {} else {a.name}
  {
  }

  lemma NoneFailsMore(v: Evaluator, block: ColumnMap, before: seq<Action>, a: Action)
    ensures NoneFails(v, block, before + [a]) <==>
            NoneFails(v, block, before) && EvaluatesAfter(v, block, before, a)
  {
    var all := before + [a];
    assert all[..|before|] == before && all[|before|] == a;
    assert forall i :: 0 <= i < |before| ==> all[..i] == before[..i] && all[i] == before[i];
  }

  /** Without failing evaluations, running the list and being runnable agree, and so do the columns. */
  ghost predicate RunsAsSaid(v: Evaluator, block: ColumnMap, actions: seq<Action>)
  {
    && (Run(Sure(v), block, actions).Ok? <==> Runnable(block.Keys, actions))
    && (Run(Sure(v), block, actions).Ok? ==>
          Run(Sure(v), block, actions).value.Keys == Available(block.Keys, actions))
  }

  lemma RunsMore(v: Evaluator, block: ColumnMap, before: seq<Action>, a: Action)
    requires RunsAsSaid(v, block, before)
    ensures RunsAsSaid(v, block, before + [a])
  {
    assert (before + [a])[..|before|] == before;
    AvailableMore(block.Keys, before, a);
    RunnableMore(block.Keys, before, a);
    if Run(Sure(v), block, before).Ok? {
      StepIff(Sure(v), Run(Sure(v), block, before).value, a);
    }
  }

  lemma {:induction false} AlwaysRunsAsSaid(v: Evaluator, block: ColumnMap, actions: seq<Action>)
    ensures RunsAsSaid(v, block, actions)
    decreases |actions|
  {
    if actions == [] {
      assert Available(block.Keys, []) == block.Keys;
    } else {
      var before, a := actions[..|actions| - 1], actions[|actions| - 1];
      AlwaysRunsAsSaid(v, block, before);
      RunsMore(v, block, before, a);
      assert before + [a] == actions;
    }
  }

  /** A list runs exactly when it runs without failing evaluations and none fails on the way. */
  lemma {:induction false} FailsIff(v: Evaluator, block: ColumnMap, actions: seq<Action>)
    ensures Run(v, block, actions).Ok? <==> Run(Sure(v), block, actions).Ok? && NoneFails(v, block, actions)
    ensures Run(v, block, actions).Ok? ==> Run(v, block, actions) == Run(Sure(v), block, actions)
    decreases |actions|
  {
    if actions != [] {
      var before, a := actions[..|actions| - 1], actions[|actions| - 1];
      FailsIff(v, block, before);
      NoneFailsMore(v, block, before, a);
      assert before + [a] == actions;
      if Run(Sure(v), block, before).Ok? {
        StepIff(v, Run(Sure(v), block, before).value, a);
        StepIff(Sure(v), Run(Sure(v), block, before).value, a);
      }
    }
  }

  /**
    A list of actions runs exactly when every action finds its columns and none fails on its values; and then
    it leaves exactly the available columns.
   */
  lemma RunIff(v: Evaluator, block: ColumnMap, actions: seq<Action>)
    ensures Run(v, block, actions).Ok? <==> Runnable(block.Keys, actions) && NoneFails(v, block, actions)
    ensures Run(v, block, actions).Ok? ==> Run(v, block, actions).value.Keys == Available(block.Keys, actions)
  {
    AlwaysRunsAsSaid(v, block, actions);
    FailsIff(v, block, actions);
  }

  // ----- Aliases -----

  /** The aliases of one argument, in program order. */
  function AliasesOf(actions: seq<Action>, arg: string): seq<string>
  {
    if actions == [] then []
    else
      var before, a := AliasesOf(actions[..|actions| - 1], arg), actions[|actions| - 1];
      if a.AliasAction? && a.argName == arg then before + [a.name] else before
  }

  /** No alias name occurs twice in the program. */
  ghost predicate DistinctNames(actions: seq<Action>)
  {
    forall i, j :: 0 <= i < j < |actions| && actions[i].AliasAction? && actions[j].AliasAction? ==>
      actions[i].name != actions[j].name
  }

  ghost predicate HasAlias(actions: seq<Action>, name: string, arg: string)
  {
    exists i :: 0 <= i < |actions| && actions[i].AliasAction? && actions[i].name == name && actions[i].argName == arg
  }

  lemma {:induction false} AliasesOfMembers(actions: seq<Action>, arg: string)
    ensures forall name :: name in AliasesOf(actions, arg) <==> HasAlias(actions, name, arg)
    ensures DistinctNames(actions) ==>
              forall p, q :: 0 <= p < q < |AliasesOf(actions, arg)| ==>
                AliasesOf(actions, arg)[p] != AliasesOf(actions, arg)[q]
    decreases |actions|
  {
    if actions != [] {
      var n := |actions| - 1;
      var before, a := actions[..n], actions[n];
      AliasesOfMembers(before, arg);
      assert DistinctNames(actions) ==> DistinctNames(before);
      forall name ensures HasAlias(actions, name, arg) <==>
                          HasAlias(before, name, arg) || (a.AliasAction? && a.name == name && a.argName == arg) {
        if HasAlias(before, name, arg) {
          var i :| 0 <= i < n && before[i].AliasAction? && before[i].name == name && before[i].argName == arg;
          assert actions[i] == before[i];
        }
        if HasAlias(actions, name, arg) {
          var i :| 0 <= i < |actions| && actions[i].AliasAction? && actions[i].name == name &&
            actions[i].argName == arg;
          assert i < n ==> actions[i] == before[i];
        }
      }
      if a.AliasAction? && a.argName == arg && DistinctNames(actions) {
        forall i | 0 <= i < n && before[i].AliasAction? ensures before[i].name != a.name {
          assert actions[i] == before[i];
        }
        assert a.name !in AliasesOf(before, arg);
      }
    }
  }

  datatype Columns = Columns(columns: ColumnMap, aliases: ColumnMap) {
    /** The projection looks among the aliases first. */
    function Lookup(name: string): Option<Value>
    {
      if name in aliases then Some(aliases[name]) else if name in columns then Some(columns[name]) else None
    }
  }

  /** `aliases` holds, under each alias of a done argument, that argument's column. */
  ghost predicate AliasesDone(actions: seq<Action>, m: ColumnMap, done: set<string>, aliases: ColumnMap)
  {
    && (forall name, arg :: arg in done && HasAlias(actions, name, arg) ==>
         name in aliases && arg in m && aliases[name] == m[arg])
    && (forall name :: name in aliases ==> exists arg :: arg in done && HasAlias(actions, name, arg))
  }

  /** Alias names are distinct and every aliased column is there. */
  ghost predicate Projectable(actions: seq<Action>, m: ColumnMap)
  {
    DistinctNames(actions) && forall name, arg :: HasAlias(actions, name, arg) ==> arg in m
  }

  /** The columns after the run and, if projected, under each alias its argument's column. */
  ghost predicate IsResult(v: Evaluator, block: ColumnMap, actions: seq<Action>, aliasProject: bool, r: Columns)
  {
    && Run(v, block, actions) == Ok(r.columns)
    && (!aliasProject ==> r.aliases == map[])
    && (aliasProject ==>
          && (forall name, arg :: HasAlias(actions, name, arg) ==>
               name in r.aliases && arg in r.columns && r.aliases[name] == r.columns[arg])
          && (forall name :: name in r.aliases ==> exists arg :: HasAlias(actions, name, arg)))
  }

  /** The first two phases: run the actions, then put each aliased column under its aliases. */
  method Prepare(v: Evaluator, block: ColumnMap, actions: seq<Action>, aliasProject: bool)
    returns (r: Result<Columns, ExecError>)
    ensures r.Ok? ==> IsResult(v, block, actions, aliasProject, r.value)
    ensures r.Err? ==> !r.error.MissingOutput?
    ensures r.Ok? <==>
              Run(v, block, actions).Ok? && (aliasProject ==> Projectable(actions, Run(v, block, actions).value))
  {
    var columnMap := block;
    var aliasActions: map<string, seq<string>> := map[];
    for i := 0 to |actions|
      invariant Run(v, block, actions[..i]) == Ok(columnMap)
      invariant forall arg :: (arg in aliasActions <==> AliasesOf(actions[..i], arg) != [])
      invariant forall arg :: arg in aliasActions ==> aliasActions[arg] == AliasesOf(actions[..i], arg)
    {
      var a := actions[i];
      assert actions[..i + 1][..i] == actions[..i];
      if a.AliasAction? {
        if a.argName in aliasActions {
          aliasActions := aliasActions[a.argName := aliasActions[a.argName] + [a.name]];
        } else {
          aliasActions := aliasActions[a.argName := [a.name]];
        }
      }
      var next := Step(v, columnMap, a);
      if next.Err? {
        RunStops(v, block, actions, i);
        return Err(next.error);
      }
      columnMap := next.value;
    }
    assert actions[..|actions|] == actions;
    if !aliasProject { return Ok(Columns(columnMap, map[])); }
    r := ProjectAliases(actions, columnMap, aliasActions);
  }

  /** The alias phase, over the arguments in any order. */
  method ProjectAliases(ghost actions: seq<Action>, m: ColumnMap, aliasActions: map<string, seq<string>>)
    returns (r: Result<Columns, ExecError>)
    requires forall arg :: arg in aliasActions <==> AliasesOf(actions, arg) != []
    requires forall arg :: arg in aliasActions ==> aliasActions[arg] == AliasesOf(actions, arg)
    ensures r.Ok? ==> r.value.columns == m && AliasesDone(actions, m, aliasActions.Keys, r.value.aliases)
    ensures r.Ok? ==> forall name, arg :: HasAlias(actions, name, arg) ==> arg in aliasActions
    ensures r.Err? ==> !r.error.MissingOutput?
    ensures r.Ok? <==> Projectable(actions, m)
  {
    var aliases: ColumnMap := map[];
    var todo := aliasActions.Keys;
    ghost var done: set<string> := {};
    while todo != {}
      invariant done !! todo && done + todo == aliasActions.Keys
      invariant AliasesDone(actions, m, done, aliases) && DistinctAmong(actions, done)
    {
      var arg :| arg in todo;
      AliasesOfMembers(actions, arg);
      assert aliasActions[arg][0] in AliasesOf(actions, arg);
      assert HasAlias(actions, aliasActions[arg][0], arg);
      if arg !in m { return Err(MissingAliasArgument); }
      var more := ProjectArgument(aliasActions[arg], m[arg], aliases);
      if more.Err? {
        if DistinctNames(actions) {
          NoneTaken(actions, m, done, aliases, arg);
        }
        return Err(more.error);
      }
      AliasesDoneMore(actions, m, done, aliases, arg, more.value);
      DistinctAmongMore(actions, m, done, aliases, arg);
      aliases := more.value;
      todo, done := todo - {arg}, done + {arg};
    }
    forall name, arg | HasAlias(actions, name, arg) ensures arg in aliasActions {
      AliasesOfMembers(actions, arg);
      assert name in AliasesOf(actions, arg);
    }
    DistinctOverall(actions, done);
    r := Ok(Columns(m, aliases));
  }

  /** No name is there already, nor comes twice. */
  predicate AllNew(names: seq<string>, start: ColumnMap)
  {
    forall k :: 0 <= k < |names| ==> names[k] !in start && names[k] !in names[..k]
  }

  /** The columns at `start`, and the value under each of the names. */
  ghost predicate Extends(names: seq<string>, v: Value, start: ColumnMap, m: ColumnMap)
  {
    && (forall n :: n in m <==> n in start || n in names)
    && (forall n :: n in m ==> m[n] == if n in names then v else start[n])
  }

  lemma ExtendsMore(names: seq<string>, v: Value, start: ColumnMap, m: ColumnMap, name: string)
    requires Extends(names, v, start, m)
    ensures Extends(names + [name], v, start, m[name := v])
  {
  }

  /** Every name of one argument; a name already there is an error. */
  method ProjectArgument(names: seq<string>, v: Value, start: ColumnMap) returns (r: Result<ColumnMap, ExecError>)
    ensures r.Ok? <==> AllNew(names, start)
    ensures r.Ok? ==> Extends(names, v, start, r.value)
    ensures r.Err? ==> r.error.DuplicateAlias?
  {
    var aliases := start;
    for k := 0 to |names|
      invariant Extends(names[..k], v, start, aliases)
      invariant forall j :: 0 <= j < k ==> names[j] !in start && names[j] !in names[..j]
    {
      if names[k] in aliases { return Err(DuplicateAlias(names[k])); }
      ExtendsMore(names[..k], v, start, aliases, names[k]);
      assert names[..k + 1] == names[..k] + [names[k]];
      aliases := aliases[names[k] := v];
    }
    assert names[..|names|] == names;
    r := Ok(aliases);
  }

  /** No two aliases of these arguments share a name. */
  ghost predicate DistinctAmong(actions: seq<Action>, args: set<string>)
  {
    forall i, j ::
      (0 <= i < j < |actions| && actions[i].AliasAction? && actions[j].AliasAction?
       && actions[i].argName in args && actions[j].argName in args) ==> actions[i].name != actions[j].name
  }

  lemma {:induction false} DistinctWithin(actions: seq<Action>, arg: string)
    requires AllNew(AliasesOf(actions, arg), map[])
    ensures DistinctAmong(actions, {arg})
    decreases |actions|
  {
    if actions != [] {
      var n := |actions| - 1;
      var before, names := actions[..n], AliasesOf(actions[..n], arg);
      assert forall k :: 0 <= k < |names| ==>
               AliasesOf(actions, arg)[..k] == names[..k] && AliasesOf(actions, arg)[k] == names[k];
      DistinctWithin(before, arg);
      AliasesOfMembers(before, arg);
      forall i, j | 0 <= i < j < |actions| && actions[i].AliasAction? && actions[j].AliasAction?
        && actions[i].argName == arg && actions[j].argName == arg
        ensures actions[i].name != actions[j].name
      {
        assert before[i] == actions[i];
        if j < n {
          assert before[j] == actions[j];
        } else {
          assert HasAlias(before, actions[i].name, arg);
          assert AliasesOf(actions, arg)[|names|] == actions[n].name && AliasesOf(actions, arg)[..|names|] == names;
        }
      }
    }
  }

  lemma DistinctAmongMore(actions: seq<Action>, m: ColumnMap, done: set<string>, start: ColumnMap, arg: string)
    requires AliasesDone(actions, m, done, start) && DistinctAmong(actions, done)
    requires AllNew(AliasesOf(actions, arg), start)
    ensures DistinctAmong(actions, done + {arg})
  {
    DistinctWithin(actions, arg);
    AliasesOfMembers(actions, arg);
    forall i, j | 0 <= i < |actions| && 0 <= j < |actions| && actions[i].AliasAction? && actions[j].AliasAction?
      && actions[i].argName in done && actions[j].argName == arg
      ensures actions[i].name != actions[j].name
    {
      assert HasAlias(actions, actions[i].name, actions[i].argName);
      assert HasAlias(actions, actions[j].name, arg);
    }
  }

  lemma DistinctOverall(actions: seq<Action>, args: set<string>)
    requires DistinctAmong(actions, args)
    requires forall name, arg :: HasAlias(actions, name, arg) ==> arg in args
    ensures DistinctNames(actions)
  {
    forall i | 0 <= i < |actions| && actions[i].AliasAction?
      ensures actions[i].argName in args
    {
      assert HasAlias(actions, actions[i].name, actions[i].argName);
    }
  }

  lemma AliasesDoneMore(actions: seq<Action>, m: ColumnMap, done: set<string>, start: ColumnMap, arg: string,
                        aliases: ColumnMap)
    requires AliasesDone(actions, m, done, start) && arg in m && arg !in done
    requires var names := AliasesOf(actions, arg);
             Extends(names, m[arg], start, aliases) && AllNew(names, start)
    ensures AliasesDone(actions, m, done + {arg}, aliases)
  {
    AliasesOfMembers(actions, arg);
  }

  lemma NoneTaken(actions: seq<Action>, m: ColumnMap, done: set<string>, start: ColumnMap, arg: string)
    requires DistinctNames(actions) && AliasesDone(actions, m, done, start) && arg !in done
    ensures AllNew(AliasesOf(actions, arg), start)
  {
    var names := AliasesOf(actions, arg);
    forall k | 0 <= k < |names|
      ensures names[k] !in start && names[k] !in names[..k]
    {
      NotTaken(actions, m, done, start, arg, k);
    }
  }

  lemma NotTaken(actions: seq<Action>, m: ColumnMap, done: set<string>, start: ColumnMap, arg: string, k: nat)
    requires DistinctNames(actions) && AliasesDone(actions, m, done, start) && arg !in done
    requires k < |AliasesOf(actions, arg)|
    ensures AliasesOf(actions, arg)[k] !in start && AliasesOf(actions, arg)[k] !in AliasesOf(actions, arg)[..k]
  {
    var names := AliasesOf(actions, arg);
    AliasesOfMembers(actions, arg);
    assert HasAlias(actions, names[k], arg) by { assert names[k] in names; }
  }

  // ----- The output -----

  /** Alias names come once and every aliased column is there. */
  ghost predicate AliasesFit(block: set<string>, actions: seq<Action>)
  {
    && NoneTwice(ActionAliases(actions))
    && forall name, arg :: HasAlias(actions, name, arg) ==> arg in Available(block, actions)
  }

  /** The list runs, and its aliases fit if they are projected. */
  ghost predicate Preparable(v: Evaluator, block: ColumnMap, actions: seq<Action>, aliasProject: bool)
  {
    && Runnable(block.Keys, actions) && NoneFails(v, block, actions)
    && (aliasProject ==> AliasesFit(block.Keys, actions))
  }

  /** The output name is a projected alias or a column. */
  ghost predicate Found(block: set<string>, actions: seq<Action>, aliasProject: bool, name: string)
  {
    (aliasProject && name in ActionAliases(actions)) || name in Available(block, actions)
  }

  ghost predicate AllFound(block: set<string>, actions: seq<Action>, aliasProject: bool, outputs: seq<string>)
  {
    forall j :: 0 <= j < |outputs| ==> Found(block, actions, aliasProject, outputs[j])
  }

  /** The columns found under the output names. */
  ghost predicate Picks(found: Columns, outputs: seq<string>, values: seq<Value>)
  {
    |values| == |outputs| && forall j :: 0 <= j < |outputs| ==> found.Lookup(outputs[j]) == Some(values[j])
  }

  /** The last phase: the output columns in order. */
  method Pick(found: Columns, outputs: seq<string>) returns (r: Result<seq<Value>, ExecError>)
    ensures r.Ok? <==> forall j :: 0 <= j < |outputs| ==> found.Lookup(outputs[j]).Some?
    ensures r.Ok? ==> Picks(found, outputs, r.value)
    ensures r.Err? ==> r.error.MissingOutput?
  {
    var values: seq<Value> := [];
    for j := 0 to |outputs|
      invariant |values| == j && forall i :: 0 <= i < j ==> found.Lookup(outputs[i]) == Some(values[i])
    {
      var column := found.Lookup(outputs[j]);
      if column.None? { return Err(MissingOutput(outputs[j])); }
      values := values + [column.value];
    }
    r := Ok(values);
  }

  /**
    All of `execute`. It succeeds exactly when the list can be prepared and every output name is found, and a
    missing output is reported exactly when only that fails.
   */
  method Execute(v: Evaluator, block: ColumnMap, actions: seq<Action>, aliasProject: bool, outputs: seq<string>)
    returns (r: Result<seq<Value>, ExecError>, ghost found: Columns)
    ensures r.Ok? <==>
              && Preparable(v, block, actions, aliasProject)
              && AllFound(block.Keys, actions, aliasProject, outputs)
    ensures r.Err? && r.error.MissingOutput? <==>
              && Preparable(v, block, actions, aliasProject)
              && !AllFound(block.Keys, actions, aliasProject, outputs)
    ensures r.Ok? ==> IsResult(v, block, actions, aliasProject, found) && Picks(found, outputs, r.value)
  {
    found := Columns(block, map[]);
    var prepared := Prepare(v, block, actions, aliasProject);
    PreparableIff(v, block, actions, aliasProject);
    if prepared.Err? { return Err(prepared.error), found; }
    found := prepared.value;
    forall j | 0 <= j < |outputs|
      ensures found.Lookup(outputs[j]).Some? <==> Found(block.Keys, actions, aliasProject, outputs[j])
    {
      LookupIff(v, block, actions, aliasProject, found, outputs[j]);
    }
    r := Pick(prepared.value, outputs);
  }

  lemma PreparableIff(v: Evaluator, block: ColumnMap, actions: seq<Action>, aliasProject: bool)
    ensures Preparable(v, block, actions, aliasProject) <==>
            Run(v, block, actions).Ok? && (aliasProject ==> Projectable(actions, Run(v, block, actions).value))
  {
    RunIff(v, block, actions);
    DistinctNamesIff(actions);
  }

  /** What the last phase finds, by the list alone. */
  lemma LookupIff(v: Evaluator, block: ColumnMap, actions: seq<Action>, aliasProject: bool, r: Columns, name: string)
    requires IsResult(v, block, actions, aliasProject, r)
    ensures r.Lookup(name).Some? <==> Found(block.Keys, actions, aliasProject, name)
  {
    RunIff(v, block, actions);
    ActionAliasMembers(actions, name);
    if aliasProject && name in ActionAliases(actions) {
      var i :| 0 <= i < |actions| && actions[i].AliasAction? && actions[i].name == name;
      assert HasAlias(actions, name, actions[i].argName);
    }
  }

  // ----- What the executor reads -----

  ghost predicate AliasFree(e: Expression)
    decreases e
  {
    !e.Alias? && forall i :: 0 <= i < |Children(e)| ==> AliasFree(Children(e)[i])
  }

  /** Nodes that get a column of their own. */
  predicate Nameable(e: Expression)
  {
    !e.Alias? && !e.Sort? && !e.Wildcard?
  }

  /** Expressions that leave a column of their own: all but aliases and wildcards, sorts aside. */
  predicate Produced(e: Expression)
  {
    if e.Sort? then Produced(e.key) else Nameable(e)
  }

  /** Expressions whose column name stands for a value: all but wildcards, sorts aside. */
  predicate Valued(e: Expression)
  {
    if e.Sort? then Valued(e.key) else !e.Wildcard?
  }

  /** The value the executor gives an argument: below the top an alias is read as the column of its name. */
  ghost function Reading(s: Semantics, row: Row, names: Row, e: Expression): Value
    decreases e
  {
    if e.Alias? then names(e.alias)
    else
      var cs := Children(e);
      Apply(s, row, e, seq(|cs|, i requires 0 <= i < |cs| => Reading(s, row, names, cs[i])))
  }

  /** Every alias below is read right. */
  ghost predicate AliasesHold(s: Semantics, row: Row, names: Row, e: Expression)
    decreases e
  {
    && (e.Alias? ==> names(e.alias) == Eval(s, row, e.aliased))
    && forall i :: 0 <= i < |Children(e)| ==> AliasesHold(s, row, names, Children(e)[i])
  }

  lemma {:induction false} ReadingIsEval(s: Semantics, row: Row, names: Row, e: Expression)
    requires AliasesHold(s, row, names, e)
    ensures Reading(s, row, names, e) == Eval(s, row, e)
    decreases e
  {
    var cs := Children(e);
    EvalUnfold(s, row, e);
    forall i | 0 <= i < |cs|
      ensures Reading(s, row, names, cs[i]) == Eval(s, row, cs[i])
    {
      ReadingIsEval(s, row, names, cs[i]);
    }
    assert EvalAll(s, row, cs) == seq(|cs|, i requires 0 <= i < |cs| => Reading(s, row, names, cs[i]));
  }

  lemma {:induction false} HoldBelow(s: Semantics, row: Row, names: Row, e: Expression, x: Expression)
    requires AliasesHold(s, row, names, e) && Below(x, e)
    ensures AliasesHold(s, row, names, x)
    decreases e
  {
    if x != e {
      var i :| 0 <= i < |Children(e)| && Below(x, Children(e)[i]);
      HoldBelow(s, row, names, Children(e)[i], x);
    }
  }

  /** Every subexpression is read as its value. */
  ghost predicate AllReadRight(s: Semantics, row: Row, names: Row, e: Expression)
  {
    forall x | Below(x, e) :: Reading(s, row, names, x) == Eval(s, row, x)
  }

  lemma {:induction false} ReadRightHolds(s: Semantics, row: Row, names: Row, e: Expression)
    requires AllReadRight(s, row, names, e)
    ensures AliasesHold(s, row, names, e)
    decreases e
  {
    assert Below(e, e);
    EvalUnfold(s, row, e);
    forall i | 0 <= i < |Children(e)|
      ensures AliasesHold(s, row, names, Children(e)[i])
    {
      var c := Children(e)[i];
      assert forall x :: Below(x, c) ==> Below(x, e);
      ReadRightHolds(s, row, names, c);
    }
  }

  /** Every subexpression is read right exactly when the column of each alias's name holds its body's value. */
  lemma AliasReadIff(s: Semantics, row: Row, names: Row, e: Expression)
    ensures AllReadRight(s, row, names, e) <==> AliasesHold(s, row, names, e)
  {
    if AllReadRight(s, row, names, e) {
      ReadRightHolds(s, row, names, e);
    }
    if AliasesHold(s, row, names, e) {
      forall x | Below(x, e)
        ensures Reading(s, row, names, x) == Eval(s, row, x)
      {
        HoldBelow(s, row, names, e, x);
        ReadingIsEval(s, row, names, x);
      }
    }
  }

  lemma {:induction false} AliasFreeHolds(s: Semantics, row: Row, names: Row, e: Expression)
    requires AliasFree(e)
    ensures AliasesHold(s, row, names, e)
    decreases e
  {
    forall i | 0 <= i < |Children(e)|
      ensures AliasesHold(s, row, names, Children(e)[i])
    {
      AliasFreeHolds(s, row, names, Children(e)[i]);
    }
  }

  // ----- Correctness -----

  /** `names` gives the value under each column name: what equal names meaning equal values provides. */
  ghost predicate NamesAgree(s: Semantics, fmt: Format, row: Row, names: Row, e: Expression)
    decreases e
  {
    && (Nameable(e) ==> names(ColumnName(fmt, e)) == Reading(s, row, names, e))
    && forall i :: 0 <= i < |Children(e)| ==> NamesAgree(s, fmt, row, names, Children(e)[i])
  }

  /** The column map holds only right values, and at least the block. */
  ghost predicate Sound(block: ColumnMap, names: Row, m: ColumnMap)
  {
    block.Keys <= m.Keys && forall n :: n in m ==> m[n] == names(n)
  }

  /** What the actions of a node compute. */
  ghost predicate NodeComputes(s: Semantics, fmt: Format, row: Row, own: seq<Action>, e: Expression)
  {
    if e.Alias? then
      |own| == 1 && own[0].AliasAction? && own[0].name == e.alias && own[0].argName == ColumnName(fmt, e.aliased)
    else if !Nameable(e) then own == []
    else
      && |own| == 1 && own[0].name == ColumnName(fmt, e)
      && match own[0]
         case Input(_, _) => e.Column? || e.Subquery? || e.ScalarSubquery?
         case Constant(_, v, t) => Children(e) == [] && s.literal(v, t) == Apply(s, row, e, [])
         case AliasAction(_, _, _) => false
         case Function(_, call, args, _) =>
           && args == ColumnNames(fmt, Children(e))
           && (call.CastTo? ==> |args| == 1)
           && forall vs :: |vs| == |Children(e)| ==> CallValue(s, call, vs) == Apply(s, row, e, vs)
  }

  ghost predicate Computes(s: Semantics, fmt: Format, row: Row, f: Emitter)
  {
    forall e :: f(e).Ok? ==> NodeComputes(s, fmt, row, f(e).value, e)
  }

  lemma NodeActionsCompute(s: Semantics, row: Row, k: Compiler, e: Expression)
    requires NodeActions(k, e).Ok?
    ensures NodeComputes(s, k.context.format, row, NodeActions(k, e).value, e)
  {
    if e.Cast? {
      assert ColumnNames(k.context.format, Children(e)) == [ColumnName(k.context.format, e.source)];
    }
  }

  lemma CompilerComputes(s: Semantics, row: Row, k: Compiler)
    ensures Computes(s, k.context.format, row, EmitterOf(k))
  {
    forall e | EmitterOf(k)(e).Ok?
      ensures NodeComputes(s, k.context.format, row, EmitterOf(k)(e).value, e)
    {
      NodeActionsCompute(s, row, k, e);
    }
  }

  /** One compilation and the block it runs on. */
  datatype Setup = Setup(
    evaluator: Evaluator, format: Format, row: Row, names: Row, block: ColumnMap, emit: Emitter,
    typed: Expression -> bool)

  ghost predicate Correct(u: Setup)
  {
    Wired(u.emit, u.format, u.typed) && Computes(u.evaluator.semantics, u.format, u.row, u.emit)
  }

  ghost predicate Agrees(u: Setup, e: Expression)
  {
    NamesAgree(u.evaluator.semantics, u.format, u.row, u.names, e)
  }

  ghost function Read(u: Setup, e: Expression): Value
  {
    Reading(u.evaluator.semantics, u.row, u.names, e)
  }

  ghost function Readings(u: Setup, es: seq<Expression>): seq<Value>
  {
    seq(|es|, i requires 0 <= i < |es| => Reading(u.evaluator.semantics, u.row, u.names, es[i]))
  }

  lemma {:induction false} NamedValue(u: Setup, e: Expression)
    requires Valued(e) && Agrees(u, e)
    ensures u.names(ColumnName(u.format, e)) == Read(u, e)
    decreases e
  {
    if e.Sort? {
      assert Children(e)[0] == e.key;
      NamedValue(u, e.key);
    }
  }

  lemma {:induction false} TypedIsValued(u: Setup, e: Expression)
    requires Correct(u) && u.typed(e) && Emit(u.emit, e).Ok?
    ensures Valued(e)
    decreases e
  {
    assert NodeWired(u.emit(e).value, u.format, u.typed, e);
    assert NodeComputes(u.evaluator.semantics, u.format, u.row, u.emit(e).value, e);
    if e.Sort? {
      var cs := Children(e);
      EmitAllOk(u.emit, cs, 0);
      TypedIsValued(u, cs[0]);
    }
  }

  lemma {:induction false} EmitAllOk(f: Emitter, es: seq<Expression>, i: nat)
    requires i < |es| && EmitAll(f, es).Ok?
    ensures Emit(f, es[i]).Ok?
    decreases |es|
  {
    if i < |es| - 1 {
      EmitAllOk(f, es[..|es| - 1], i);
    }
  }

  /** The columns named after a node's children hold what the executor reads. */
  lemma ArgumentsRead(u: Setup, e: Expression)
    requires Correct(u) && Emit(u.emit, e).Ok? && u.emit(e).value != [] && Agrees(u, e)
    ensures forall i :: 0 <= i < |Children(e)| ==>
              u.names(ColumnName(u.format, Children(e)[i])) == Read(u, Children(e)[i])
  {
    var cs := Children(e);
    assert NodeWired(u.emit(e).value, u.format, u.typed, e);
    forall i | 0 <= i < |cs|
      ensures u.names(ColumnName(u.format, cs[i])) == Read(u, cs[i])
    {
      EmitAllOk(u.emit, cs, i);
      TypedIsValued(u, cs[i]);
      NamedValue(u, cs[i]);
    }
  }

  lemma StepNode(u: Setup, m: ColumnMap, own: seq<Action>, e: Expression)
    requires NodeComputes(u.evaluator.semantics, u.format, u.row, own, e) && Nameable(e)
    requires Sound(u.block, u.names, m) && u.names(ColumnName(u.format, e)) == Read(u, e)
    requires forall i :: 0 <= i < |Children(e)| ==>
               u.names(ColumnName(u.format, Children(e)[i])) == Read(u, Children(e)[i])
    requires Step(u.evaluator, m, own[0]).Ok?
    ensures var r := Step(u.evaluator, m, own[0]).value;
            Sound(u.block, u.names, r) && m.Keys <= r.Keys && ColumnName(u.format, e) in r
  {
    var a, cs := own[0], Children(e);
    var given := Readings(u, cs);
    assert Read(u, e) == Apply(u.evaluator.semantics, u.row, e, given);
    if a.Function? && a.name !in m {
      assert ArgumentValues(m, a.argNames) == given;
    } else if a.Constant? {
      assert given == [];
    }
  }

  /** The node's own actions, after its children's. */
  lemma RunOwn(u: Setup, m: ColumnMap, e: Expression)
    requires Correct(u) && Emit(u.emit, e).Ok? && Agrees(u, e)
    requires Sound(u.block, u.names, m) && ColumnsIn(u, m, Children(e))
    requires Run(u.evaluator, m, u.emit(e).value).Ok?
    ensures var r := Run(u.evaluator, m, u.emit(e).value).value;
            && Sound(u.block, u.names, r) && m.Keys <= r.Keys
            && (Produced(e) ==> ColumnName(u.format, e) in r)
  {
    var own := u.emit(e).value;
    assert NodeComputes(u.evaluator.semantics, u.format, u.row, own, e);
    if own != [] {
      RunOne(u.evaluator, m, own);
    }
    if Nameable(e) {
      ArgumentsRead(u, e);
      StepNode(u, m, own, e);
    } else if e.Sort? {
      assert Children(e)[0] == e.key;
    }
  }

  /** Whatever runs keeps every column right and adds its own, for every expression. */
  lemma {:induction false} RunEmit(u: Setup, m: ColumnMap, e: Expression)
    requires Correct(u) && Emit(u.emit, e).Ok? && Agrees(u, e) && Sound(u.block, u.names, m)
    requires Run(u.evaluator, m, Emit(u.emit, e).value).Ok?
    ensures var r := Run(u.evaluator, m, Emit(u.emit, e).value).value;
            && Sound(u.block, u.names, r) && m.Keys <= r.Keys
            && (Produced(e) ==> ColumnName(u.format, e) in r)
    decreases Size(e), 0
  {
    var cs, args, own := Children(e), EmitAll(u.emit, Children(e)).value, u.emit(e).value;
    RunConcat(u.evaluator, m, args, own);
    RunEmitAll(u, m, cs);
    RunOwn(u, Run(u.evaluator, m, args).value, e);
  }

  lemma RunOne(v: Evaluator, m: ColumnMap, own: seq<Action>)
    requires |own| == 1
    ensures Run(v, m, own) == Step(v, m, own[0])
  {
    assert own[..0] == [];
  }

  /** Every expression of the list that leaves a column has it. */
  ghost predicate ColumnsIn(u: Setup, m: ColumnMap, es: seq<Expression>)
  {
    forall i :: 0 <= i < |es| && Produced(es[i]) ==> ColumnName(u.format, es[i]) in m
  }

  lemma ColumnsInMore(u: Setup, m: ColumnMap, es: seq<Expression>)
    requires es != [] && ColumnsIn(u, m, es[..|es| - 1])
    requires Produced(es[|es| - 1]) ==> ColumnName(u.format, es[|es| - 1]) in m
    ensures ColumnsIn(u, m, es)
  {
    forall i | 0 <= i < |es| && Produced(es[i])
      ensures ColumnName(u.format, es[i]) in m
    {
      if i < |es| - 1 { assert es[..|es| - 1][i] == es[i]; }
    }
  }

  lemma {:induction false} RunEmitAll(u: Setup, m: ColumnMap, es: seq<Expression>)
    requires Correct(u) && EmitAll(u.emit, es).Ok? && Sound(u.block, u.names, m)
    requires forall i :: 0 <= i < |es| ==> Agrees(u, es[i])
    requires Run(u.evaluator, m, EmitAll(u.emit, es).value).Ok?
    ensures var r := Run(u.evaluator, m, EmitAll(u.emit, es).value).value;
            Sound(u.block, u.names, r) && m.Keys <= r.Keys && ColumnsIn(u, r, es)
    decreases SizeAll(es), 1
  {
    if es != [] {
      var last, rest := es[|es| - 1], es[..|es| - 1];
      var first, second := Emit(u.emit, last).value, EmitAll(u.emit, rest).value;
      assert EmitAll(u.emit, es).value == first + second;
      RunConcat(u.evaluator, m, first, second);
      RunEmit(u, m, last);
      RunEmitAll(u, Run(u.evaluator, m, first).value, rest);
      ColumnsInMore(u, Run(u.evaluator, m, first + second).value, es);
    }
  }

  ghost predicate AllAgree(u: Setup, exprs: seq<Expression>)
  {
    forall i :: 0 <= i < |exprs| ==> Agrees(u, exprs[i])
  }

  /** The same for a whole compiled list. */
  lemma {:induction false} RunProgram(u: Setup, exprs: seq<Expression>)
    requires Correct(u) && Program(u.emit, exprs).Ok? && AllAgree(u, exprs) && Sound(u.block, u.names, u.block)
    requires Run(u.evaluator, u.block, Program(u.emit, exprs).value).Ok?
    ensures var r := Run(u.evaluator, u.block, Program(u.emit, exprs).value).value;
            Sound(u.block, u.names, r) && ColumnsIn(u, r, exprs)
    decreases |exprs|
  {
    if exprs != [] {
      var last, rest := exprs[|exprs| - 1], exprs[..|exprs| - 1];
      var before, more := Program(u.emit, rest).value, Emit(u.emit, last).value;
      assert Program(u.emit, exprs) == Ok(before + more);
      RunConcat(u.evaluator, u.block, before, more);
      RunProgram(u, rest);
      RunEmit(u, Run(u.evaluator, u.block, before).value, last);
      ColumnsInMore(u, Run(u.evaluator, u.block, before + more).value, exprs);
    }
  }

  // ----- The aliases of a projection -----

  /** The aliases in an expression, nested ones included, as the compiler meets them. */
  function AliasNames(e: Expression): seq<string>
    decreases Size(e), 0
  {
    AliasNamesAll(Children(e)) + if e.Alias? then [e.alias] else []
  }

  function AliasNamesAll(es: seq<Expression>): seq<string>
    decreases SizeAll(es), 1
  {
    if es == [] then [] else AliasNames(es[|es| - 1]) + AliasNamesAll(es[..|es| - 1])
  }

  function ProjectedAliases(exprs: seq<Expression>): seq<string>
  {
    if exprs == [] then [] else ProjectedAliases(exprs[..|exprs| - 1]) + AliasNames(exprs[|exprs| - 1])
  }

  function ActionAliases(actions: seq<Action>): seq<string>
  {
    if actions == [] then []
    else
      var a := actions[|actions| - 1];
      ActionAliases(actions[..|actions| - 1]) + if a.AliasAction? then [a.name] else []
  }

  lemma {:induction false} ActionAliasesConcat(a: seq<Action>, b: seq<Action>)
    ensures ActionAliases(a + b) == ActionAliases(a) + ActionAliases(b)
    decreases |b|
  {
    if b == [] {
      assert a + b == a;
    } else {
      assert (a + b)[..|a + b| - 1] == a + b[..|b| - 1];
      ActionAliasesConcat(a, b[..|b| - 1]);
    }
  }

  lemma OwnAliases(u: Setup, e: Expression)
    requires Correct(u) && u.emit(e).Ok?
    ensures ActionAliases(u.emit(e).value) == if e.Alias? then [e.alias] else []
  {
    var own := u.emit(e).value;
    assert NodeComputes(u.evaluator.semantics, u.format, u.row, own, e);
    if own != [] {
      assert own[..0] == [];
    }
  }

  lemma {:induction false} EmitAliases(u: Setup, e: Expression)
    requires Correct(u) && Emit(u.emit, e).Ok?
    ensures ActionAliases(Emit(u.emit, e).value) == AliasNames(e)
    decreases Size(e), 0
  {
    EmitAllAliases(u, Children(e));
    OwnAliases(u, e);
    ActionAliasesConcat(EmitAll(u.emit, Children(e)).value, u.emit(e).value);
  }

  lemma {:induction false} EmitAllAliases(u: Setup, es: seq<Expression>)
    requires Correct(u) && EmitAll(u.emit, es).Ok?
    ensures ActionAliases(EmitAll(u.emit, es).value) == AliasNamesAll(es)
    decreases SizeAll(es), 1
  {
    if es != [] {
      EmitAliases(u, es[|es| - 1]);
      EmitAllAliases(u, es[..|es| - 1]);
      ActionAliasesConcat(Emit(u.emit, es[|es| - 1]).value, EmitAll(u.emit, es[..|es| - 1]).value);
    }
  }

  lemma {:induction false} ProgramAliases(u: Setup, exprs: seq<Expression>)
    requires Correct(u) && Program(u.emit, exprs).Ok?
    ensures ActionAliases(Program(u.emit, exprs).value) == ProjectedAliases(exprs)
    decreases |exprs|
  {
    if exprs != [] {
      ProgramAliases(u, exprs[..|exprs| - 1]);
      EmitAliases(u, exprs[|exprs| - 1]);
      ActionAliasesConcat(Program(u.emit, exprs[..|exprs| - 1]).value, Emit(u.emit, exprs[|exprs| - 1]).value);
    }
  }

  predicate NoneTwice(names: seq<string>)
  {
    forall i, j :: 0 <= i < j < |names| ==> names[i] != names[j]
  }

  lemma NoneTwiceMore(names: seq<string>, name: string)
    ensures NoneTwice(names + [name]) <==> NoneTwice(names) && name !in names
  {
    var all := names + [name];
    assert all[|names|] == name && forall i :: 0 <= i < |names| ==> all[i] == names[i];
  }

  lemma {:induction false} ActionAliasMembers(actions: seq<Action>, name: string)
    ensures name in ActionAliases(actions) <==>
            exists i :: 0 <= i < |actions| && actions[i].AliasAction? && actions[i].name == name
    decreases |actions|
  {
    if actions != [] {
      var n := |actions| - 1;
      ActionAliasMembers(actions[..n], name);
      assert forall i :: 0 <= i < n ==> actions[..n][i] == actions[i];
    }
  }

  lemma DistinctNamesMore(before: seq<Action>, a: Action)
    ensures DistinctNames(before + [a]) <==>
            && DistinctNames(before)
            && (a.AliasAction? ==> !exists i :: 0 <= i < |before| && before[i].AliasAction? && before[i].name == a.name)
  {
    var all := before + [a];
    assert all[|before|] == a && forall i :: 0 <= i < |before| ==> all[i] == before[i];
    if DistinctNames(all) && a.AliasAction? {
      forall i | 0 <= i < |before| && before[i].AliasAction?
        ensures before[i].name != a.name
      {
        assert all[i].name != all[|before|].name;
      }
    }
  }

  /** The alias actions have distinct names exactly when no alias name comes twice. */
  lemma {:induction false} DistinctNamesIff(actions: seq<Action>)
    ensures DistinctNames(actions) <==> NoneTwice(ActionAliases(actions))
    decreases |actions|
  {
    if actions != [] {
      var before, a := actions[..|actions| - 1], actions[|actions| - 1];
      DistinctNamesIff(before);
      assert actions == before + [a];
      DistinctNamesMore(before, a);
      ActionAliasMembers(before, a.name);
      NoneTwiceMore(ActionAliases(before), a.name);
      assert ActionAliases(before) + [] == ActionAliases(before);
    }
  }

  /** An alias of this name and argument, in or below the expression. */
  ghost predicate HasAliasIn(fmt: Format, e: Expression, name: string, arg: string)
    decreases e
  {
    || (e.Alias? && e.alias == name && ColumnName(fmt, e.aliased) == arg)
    || exists i :: 0 <= i < |Children(e)| && HasAliasIn(fmt, Children(e)[i], name, arg)
  }

  lemma HasAliasConcat(a: seq<Action>, b: seq<Action>, name: string, arg: string)
    ensures HasAlias(a + b, name, arg) <==> HasAlias(a, name, arg) || HasAlias(b, name, arg)
  {
    var ab := a + b;
    if i :| 0 <= i < |a| && a[i].AliasAction? && a[i].name == name && a[i].argName == arg {
      assert ab[i] == a[i];
    }
    if i :| 0 <= i < |b| && b[i].AliasAction? && b[i].name == name && b[i].argName == arg {
      assert ab[|a| + i] == b[i];
    }
  }

  ghost predicate AnyHasAlias(fmt: Format, es: seq<Expression>, name: string, arg: string)
  {
    exists i :: 0 <= i < |es| && HasAliasIn(fmt, es[i], name, arg)
  }

  lemma AnyHasAliasMore(fmt: Format, rest: seq<Expression>, last: Expression, name: string, arg: string)
    ensures AnyHasAlias(fmt, rest + [last], name, arg) <==>
            AnyHasAlias(fmt, rest, name, arg) || HasAliasIn(fmt, last, name, arg)
  {
    var es := rest + [last];
    assert es[|rest|] == last;
    if i :| 0 <= i < |rest| && HasAliasIn(fmt, rest[i], name, arg) {
      assert es[i] == rest[i];
    }
  }

  /** The actions of a list, made of those of its rest and its last member in either order. */
  lemma HasAliasMore(fmt: Format, a: seq<Action>, rest: seq<Expression>, b: seq<Action>, last: Expression,
                     name: string, arg: string)
    requires HasAlias(a, name, arg) <==> AnyHasAlias(fmt, rest, name, arg)
    requires HasAlias(b, name, arg) <==> HasAliasIn(fmt, last, name, arg)
    ensures HasAlias(a + b, name, arg) <==> AnyHasAlias(fmt, rest + [last], name, arg)
    ensures HasAlias(b + a, name, arg) <==> AnyHasAlias(fmt, rest + [last], name, arg)
  {
    HasAliasConcat(a, b, name, arg);
    HasAliasConcat(b, a, name, arg);
    AnyHasAliasMore(fmt, rest, last, name, arg);
  }

  /** The actions of the expression have the alias exactly when the expression does. */
  ghost predicate EmitsAlias(fmt: Format, f: Emitter, e: Expression, name: string, arg: string)
  {
    Emit(f, e).Ok? ==> (HasAlias(Emit(f, e).value, name, arg) <==> HasAliasIn(fmt, e, name, arg))
  }

  lemma {:induction false} EmitAllHasAlias(fmt: Format, f: Emitter, es: seq<Expression>, name: string, arg: string)
    requires EmitAll(f, es).Ok? && forall i :: 0 <= i < |es| ==> EmitsAlias(fmt, f, es[i], name, arg)
    ensures HasAlias(EmitAll(f, es).value, name, arg) <==> AnyHasAlias(fmt, es, name, arg)
    decreases |es|
  {
    if es != [] {
      var last, rest := es[|es| - 1], es[..|es| - 1];
      EmitAllHasAlias(fmt, f, rest, name, arg);
      HasAliasMore(fmt, EmitAll(f, rest).value, rest, Emit(f, last).value, last, name, arg);
      assert rest + [last] == es;
    }
  }

  lemma {:induction false} EmitHasAlias(u: Setup, e: Expression, name: string, arg: string)
    requires Correct(u)
    ensures EmitsAlias(u.format, u.emit, e, name, arg)
    decreases e
  {
    var cs := Children(e);
    forall i | 0 <= i < |cs|
      ensures EmitsAlias(u.format, u.emit, cs[i], name, arg)
    {
      EmitHasAlias(u, cs[i], name, arg);
    }
    if Emit(u.emit, e).Ok? {
      var own := u.emit(e).value;
      EmitAllHasAlias(u.format, u.emit, cs, name, arg);
      assert NodeComputes(u.evaluator.semantics, u.format, u.row, own, e);
      NodeHasAlias(u.evaluator.semantics, u.format, u.row, EmitAll(u.emit, cs).value, own, e, name, arg);
    }
  }

  lemma NodeHasAlias(s: Semantics, fmt: Format, row: Row, args: seq<Action>, own: seq<Action>, e: Expression,
                     name: string, arg: string)
    requires NodeComputes(s, fmt, row, own, e)
    requires HasAlias(args, name, arg) <==> AnyHasAlias(fmt, Children(e), name, arg)
    ensures HasAlias(args + own, name, arg) <==> HasAliasIn(fmt, e, name, arg)
  {
    HasAliasConcat(args, own, name, arg);
    assert HasAlias(own, name, arg) <==> e.Alias? && e.alias == name && ColumnName(fmt, e.aliased) == arg;
  }

  lemma {:induction false} ProgramsAlias(fmt: Format, f: Emitter, exprs: seq<Expression>, name: string, arg: string)
    requires Program(f, exprs).Ok? && forall i :: 0 <= i < |exprs| ==> EmitsAlias(fmt, f, exprs[i], name, arg)
    ensures HasAlias(Program(f, exprs).value, name, arg) <==> AnyHasAlias(fmt, exprs, name, arg)
    decreases |exprs|
  {
    if exprs != [] {
      var last, rest := exprs[|exprs| - 1], exprs[..|exprs| - 1];
      ProgramsAlias(fmt, f, rest, name, arg);
      HasAliasMore(fmt, Program(f, rest).value, rest, Emit(f, last).value, last, name, arg);
      assert rest + [last] == exprs;
    }
  }

  lemma ProgramHasAlias(u: Setup, exprs: seq<Expression>, name: string, arg: string)
    requires Correct(u) && Program(u.emit, exprs).Ok?
    ensures HasAlias(Program(u.emit, exprs).value, name, arg) <==> AnyHasAlias(u.format, exprs, name, arg)
  {
    forall i | 0 <= i < |exprs|
      ensures EmitsAlias(u.format, u.emit, exprs[i], name, arg)
    {
      EmitHasAlias(u, exprs[i], name, arg);
    }
    ProgramsAlias(u.format, u.emit, exprs, name, arg);
  }

  // ----- What a projection returns -----

  /** An alias at the top is found with the value of its body. */
  lemma AliasIsProjected(u: Setup, exprs: seq<Expression>, r: Columns, i: nat)
    requires Correct(u) && Program(u.emit, exprs).Ok? && AllAgree(u, exprs) && Sound(u.block, u.names, u.block)
    requires IsResult(u.evaluator, u.block, Program(u.emit, exprs).value, true, r)
    requires i < |exprs| && exprs[i].Alias? && Valued(exprs[i].aliased)
    ensures r.Lookup(exprs[i].alias) == Some(Read(u, exprs[i].aliased))
  {
    var e := exprs[i];
    RunProgram(u, exprs);
    assert AnyHasAlias(u.format, exprs, e.alias, ColumnName(u.format, e.aliased));
    ProgramHasAlias(u, exprs, e.alias, ColumnName(u.format, e.aliased));
    assert Children(e)[0] == e.aliased;
    NamedValue(u, e.aliased);
  }

  /** Any other expression is found with its value exactly when no alias of its name has another. */
  lemma ExpressionIsProjectedIff(u: Setup, exprs: seq<Expression>, r: Columns, i: nat)
    requires Correct(u) && Program(u.emit, exprs).Ok? && AllAgree(u, exprs) && Sound(u.block, u.names, u.block)
    requires IsResult(u.evaluator, u.block, Program(u.emit, exprs).value, true, r)
    requires i < |exprs| && Produced(exprs[i])
    ensures r.Lookup(ColumnName(u.format, exprs[i])) == Some(Read(u, exprs[i])) <==>
            NotShadowed(u, exprs, exprs[i])
  {
    var p, e := Program(u.emit, exprs).value, exprs[i];
    var name := ColumnName(u.format, e);
    RunProgram(u, exprs);
    ProducedIsValued(e);
    NamedValue(u, e);
    forall arg
      ensures HasAlias(p, name, arg) <==> AnyHasAlias(u.format, exprs, name, arg)
    {
      ProgramHasAlias(u, exprs, name, arg);
    }
    if name in r.aliases {
      var arg :| HasAlias(p, name, arg);
      assert r.aliases[name] == u.names(arg);
    }
  }

  lemma {:induction false} ProducedIsValued(e: Expression)
    requires Produced(e)
    ensures Valued(e)
    decreases e
  {
    if e.Sort? {
      ProducedIsValued(e.key);
    }
  }

  /** Every alias with the expression's name, nested ones included, is of a column with its value. */
  ghost predicate NotShadowed(u: Setup, exprs: seq<Expression>, e: Expression)
  {
    forall arg :: AnyHasAlias(u.format, exprs, ColumnName(u.format, e), arg) ==> u.names(arg) == Read(u, e)
  }

  // ----- Blocks that suffice -----

  /** The block holds what the node itself reads from it. */
  predicate OwnInput(block: set<string>, e: Expression)
  {
    && (e.Column? ==> e.column in block)
    && (e.Subquery? ==> e.subqueryName in block)
    && (e.ScalarSubquery? ==> e.scalarName in block)
  }

  /** The block holds all columns and subqueries below, and the names of all aliases. */
  ghost predicate InputsReady(block: set<string>, e: Expression)
    decreases e
  {
    && OwnInput(block, e) && (e.Alias? ==> e.alias in block)
    && forall i :: 0 <= i < |Children(e)| ==> InputsReady(block, Children(e)[i])
  }

  /** The same, except that an alias at the top needs no column of its name. */
  ghost predicate TopReady(block: set<string>, e: Expression)
  {
    OwnInput(block, e) && forall i :: 0 <= i < |Children(e)| ==> InputsReady(block, Children(e)[i])
  }

  lemma AvailableConcat(block: set<string>, a: seq<Action>, b: seq<Action>)
    ensures Available(block, a + b) == Available(block, a) + Available(block, b)
    ensures Available(Available(block, a), b) == Available(block, a + b)
  {
    var ab := a + b;
    assert forall i :: 0 <= i < |a| ==> ab[i] == a[i];
    assert forall i :: 0 <= i < |b| ==> ab[|a| + i] == b[i];
    forall n | n in Available(block, a) + Available(block, b)
      ensures n in Available(block, ab)
    {
      if i :| 0 <= i < |a| && !a[i].AliasAction? && a[i].name == n {
        assert ab[i].name == n;
      } else if j :| 0 <= j < |b| && !b[j].AliasAction? && b[j].name == n {
        assert ab[|a| + j].name == n;
      }
    }
  }

  /** A name that stands for a value is there once the expression's actions have run. */
  lemma {:induction false} NamedThere(u: Setup, e: Expression)
    requires Correct(u) && Emit(u.emit, e).Ok? && InputsReady(u.block.Keys, e) && Valued(e)
    ensures ColumnName(u.format, e) in Available(u.block.Keys, Emit(u.emit, e).value)
    decreases e
  {
    var args, own := EmitAll(u.emit, Children(e)).value, u.emit(e).value;
    assert NodeComputes(u.evaluator.semantics, u.format, u.row, own, e);
    AvailableConcat(u.block.Keys, args, own);
    if e.Sort? {
      assert Children(e) == [e.key];
      EmitAllOk(u.emit, Children(e), 0);
      NamedThere(u, e.key);
      ArgumentThere(u, Children(e), 0);
    } else if !e.Alias? {
      assert own[0].name in Available(u.block.Keys, own);
    }
  }

  lemma {:induction false} ArgumentThere(u: Setup, es: seq<Expression>, i: nat)
    requires i < |es| && EmitAll(u.emit, es).Ok? && Emit(u.emit, es[i]).Ok?
    ensures Available(u.block.Keys, Emit(u.emit, es[i]).value) <= Available(u.block.Keys, EmitAll(u.emit, es).value)
    decreases |es|
  {
    var n := |es| - 1;
    if i < n {
      ArgumentThere(u, es[..n], i);
    }
    AvailableConcat(u.block.Keys, Emit(u.emit, es[n]).value, EmitAll(u.emit, es[..n]).value);
  }

  /** The column an alias stands for is there, for every alias in or below the expression. */
  lemma {:induction false} AliasArgumentThere(u: Setup, e: Expression, name: string, arg: string)
    requires Correct(u) && Emit(u.emit, e).Ok? && TopReady(u.block.Keys, e) && HasAliasIn(u.format, e, name, arg)
    ensures arg in Available(u.block.Keys, Emit(u.emit, e).value)
    decreases e
  {
    var cs, own := Children(e), u.emit(e).value;
    AvailableConcat(u.block.Keys, EmitAll(u.emit, cs).value, own);
    assert NodeWired(own, u.format, u.typed, e) && NodeComputes(u.evaluator.semantics, u.format, u.row, own, e);
    if e.Alias? && e.alias == name && ColumnName(u.format, e.aliased) == arg {
      assert cs == [e.aliased];
      EmitAllOk(u.emit, cs, 0);
      TypedIsValued(u, cs[0]);
      NamedThere(u, cs[0]);
      ArgumentThere(u, cs, 0);
    } else {
      var i :| 0 <= i < |cs| && HasAliasIn(u.format, cs[i], name, arg);
      EmitAllOk(u.emit, cs, i);
      AliasArgumentThere(u, cs[i], name, arg);
      ArgumentThere(u, cs, i);
    }
  }

  /** The node's own evaluation succeeds on what the executor reads for its children. */
  ghost predicate NodeEvaluates(u: Setup, e: Expression)
  {
    u.emit(e).Ok? && u.emit(e).value != [] ==>
      var a := u.emit(e).value[0];
      && (a.Constant? ==> u.evaluator.constants(a.value, a.dataType))
      && (a.Function? ==> u.evaluator.calls(a.call, Readings(u, Children(e))))
  }

  ghost predicate Evaluated(u: Setup, e: Expression)
    decreases e
  {
    NodeEvaluates(u, e) && forall i :: 0 <= i < |Children(e)| ==> Evaluated(u, Children(e)[i])
  }

  /** Either nothing can fail, or all columns are right and on right columns nothing does. */
  ghost predicate Unfailing(u: Setup, m: ColumnMap, es: seq<Expression>)
  {
    || IsSure(u.evaluator)
    || (Sound(u.block, u.names, m) && forall i :: 0 <= i < |es| ==> Agrees(u, es[i]) && Evaluated(u, es[i]))
  }

  /** A ready expression's actions run on every map with the block's columns. */
  lemma {:induction false} EmitRuns(u: Setup, m: ColumnMap, e: Expression)
    requires Correct(u) && Emit(u.emit, e).Ok? && TopReady(u.block.Keys, e) && u.block.Keys <= m.Keys
    requires Unfailing(u, m, [e])
    ensures Run(u.evaluator, m, Emit(u.emit, e).value).Ok?
    decreases Size(e), 0
  {
    var cs, args, own := Children(e), EmitAll(u.emit, Children(e)).value, u.emit(e).value;
    assert [e][0] == e;
    EmitAllRuns(u, m, cs);
    RunConcat(u.evaluator, m, args, own);
    if own != [] {
      var m1 := Run(u.evaluator, m, args).value;
      assert NodeComputes(u.evaluator.semantics, u.format, u.row, own, e);
      RunOne(u.evaluator, m1, own);
      RunIff(u.evaluator, m, args);
      if !IsSure(u.evaluator) {
        RunEmitAll(u, m, cs);
      }
      OwnStepRuns(u, m1, e);
    }
  }

  /** The columns named after a ready function's children are there. */
  lemma ChildrenThere(u: Setup, m: ColumnMap, e: Expression, i: nat)
    requires Correct(u) && Emit(u.emit, e).Ok? && TopReady(u.block.Keys, e) && u.emit(e).value != []
    requires Available(u.block.Keys, EmitAll(u.emit, Children(e)).value) <= m.Keys && i < |Children(e)|
    ensures ColumnName(u.format, Children(e)[i]) in m
  {
    var cs := Children(e);
    assert NodeWired(u.emit(e).value, u.format, u.typed, e);
    EmitAllOk(u.emit, cs, i);
    TypedIsValued(u, cs[i]);
    NamedThere(u, cs[i]);
    ArgumentThere(u, cs, i);
  }

  /** On right columns a function is given what is read for its children. */
  lemma GivenReadings(u: Setup, m: ColumnMap, e: Expression)
    requires Correct(u) && Emit(u.emit, e).Ok? && u.emit(e).value != [] && Agrees(u, e) && Sound(u.block, u.names, m)
    requires forall i :: 0 <= i < |Children(e)| ==> ColumnName(u.format, Children(e)[i]) in m
    ensures ArgumentValues(m, ColumnNames(u.format, Children(e))) == Readings(u, Children(e))
  {
    ArgumentsRead(u, e);
  }

  /** An action of a node runs where its inputs are and its evaluation succeeds. */
  lemma ReadyStep(v: Evaluator, fmt: Format, row: Row, m: ColumnMap, own: seq<Action>, e: Expression)
    requires NodeComputes(v.semantics, fmt, row, own, e) && own != [] && OwnInput(m.Keys, e)
    requires forall i :: 0 <= i < |Children(e)| ==> ColumnName(fmt, Children(e)[i]) in m
    requires own[0].Constant? ==> v.constants(own[0].value, own[0].dataType)
    requires own[0].Function? ==> v.calls(own[0].call, ArgumentValues(m, ColumnNames(fmt, Children(e))))
    ensures Step(v, m, own[0]).Ok?
  {
  }

  lemma OwnEvaluates(u: Setup, m: ColumnMap, e: Expression)
    requires Correct(u) && Emit(u.emit, e).Ok? && u.emit(e).value != [] && Unfailing(u, m, [e])
    requires forall i :: 0 <= i < |Children(e)| ==> ColumnName(u.format, Children(e)[i]) in m
    ensures var a := u.emit(e).value[0];
            && (a.Constant? ==> u.evaluator.constants(a.value, a.dataType))
            && (a.Function? ==> u.evaluator.calls(a.call, ArgumentValues(m, ColumnNames(u.format, Children(e)))))
  {
    assert [e][0] == e;
    if !IsSure(u.evaluator) {
      GivenReadings(u, m, e);
    }
  }

  lemma OwnStepRuns(u: Setup, m: ColumnMap, e: Expression)
    requires Correct(u) && Emit(u.emit, e).Ok? && TopReady(u.block.Keys, e) && u.emit(e).value != []
    requires Available(u.block.Keys, EmitAll(u.emit, Children(e)).value) <= m.Keys && Unfailing(u, m, [e])
    ensures Step(u.evaluator, m, u.emit(e).value[0]).Ok?
  {
    var cs, own := Children(e), u.emit(e).value;
    forall i | 0 <= i < |cs|
      ensures ColumnName(u.format, cs[i]) in m
    {
      ChildrenThere(u, m, e, i);
    }
    OwnEvaluates(u, m, e);
    assert NodeComputes(u.evaluator.semantics, u.format, u.row, own, e);
    ReadyStep(u.evaluator, u.format, u.row, m, own, e);
  }

  lemma {:induction false} EmitAllRuns(u: Setup, m: ColumnMap, es: seq<Expression>)
    requires Correct(u) && EmitAll(u.emit, es).Ok? && u.block.Keys <= m.Keys
    requires Unfailing(u, m, es) && forall i :: 0 <= i < |es| ==> TopReady(u.block.Keys, es[i])
    ensures Run(u.evaluator, m, EmitAll(u.emit, es).value).Ok?
    decreases SizeAll(es), 1
  {
    if es != [] {
      var last, rest := es[|es| - 1], es[..|es| - 1];
      var first, second := Emit(u.emit, last).value, EmitAll(u.emit, rest).value;
      EmitRuns(u, m, last);
      RunIff(u.evaluator, m, first);
      if !IsSure(u.evaluator) {
        RunEmit(u, m, last);
      }
      EmitAllRuns(u, Run(u.evaluator, m, first).value, rest);
      RunConcat(u.evaluator, m, first, second);
    }
  }

  ghost predicate AllReady(block: set<string>, exprs: seq<Expression>)
  {
    forall i :: 0 <= i < |exprs| ==> TopReady(block, exprs[i])
  }

  lemma {:induction false} ProgramRuns(u: Setup, exprs: seq<Expression>)
    requires Correct(u) && Program(u.emit, exprs).Ok? && AllReady(u.block.Keys, exprs)
    requires Unfailing(u, u.block, exprs)
    ensures Run(u.evaluator, u.block, Program(u.emit, exprs).value).Ok?
    decreases |exprs|
  {
    if exprs != [] {
      var last, rest := exprs[|exprs| - 1], exprs[..|exprs| - 1];
      var before, more := Program(u.emit, rest).value, Emit(u.emit, last).value;
      ProgramRuns(u, rest);
      RunIff(u.evaluator, u.block, before);
      if !IsSure(u.evaluator) {
        RunProgram(u, rest);
      }
      EmitRuns(u, Run(u.evaluator, u.block, before).value, last);
      RunConcat(u.evaluator, u.block, before, more);
    }
  }

  /** On a block that suffices every action finds its columns, whatever fails. */
  lemma ProgramIsRunnable(u: Setup, exprs: seq<Expression>)
    requires Correct(u) && Program(u.emit, exprs).Ok? && AllReady(u.block.Keys, exprs)
    ensures Runnable(u.block.Keys, Program(u.emit, exprs).value)
  {
    var w := u.(evaluator := Sure(u.evaluator));
    assert Correct(w) && IsSure(w.evaluator);
    ProgramRuns(w, exprs);
    RunIff(w.evaluator, w.block, Program(w.emit, exprs).value);
  }

  lemma {:induction false} MemberThere(u: Setup, exprs: seq<Expression>, i: nat)
    requires i < |exprs| && Program(u.emit, exprs).Ok?
    ensures Emit(u.emit, exprs[i]).Ok?
    ensures Available(u.block.Keys, Emit(u.emit, exprs[i]).value) <=
            Available(u.block.Keys, Program(u.emit, exprs).value)
    decreases |exprs|
  {
    var n := |exprs| - 1;
    if i < n {
      MemberThere(u, exprs[..n], i);
    }
    AvailableConcat(u.block.Keys, Program(u.emit, exprs[..n]).value, Emit(u.emit, exprs[n]).value);
  }

  lemma AliasArgumentsThere(u: Setup, exprs: seq<Expression>, name: string, arg: string)
    requires Correct(u) && Program(u.emit, exprs).Ok? && AllReady(u.block.Keys, exprs)
    requires AnyHasAlias(u.format, exprs, name, arg)
    ensures arg in Available(u.block.Keys, Program(u.emit, exprs).value)
  {
    var i :| 0 <= i < |exprs| && HasAliasIn(u.format, exprs[i], name, arg);
    MemberThere(u, exprs, i);
    AliasArgumentThere(u, exprs[i], name, arg);
  }

  /** On a block that suffices, aliases fit exactly when no alias name comes twice. */
  lemma ProgramSucceedsIff(u: Setup, exprs: seq<Expression>)
    requires Correct(u) && Program(u.emit, exprs).Ok? && AllReady(u.block.Keys, exprs)
    ensures var p := Program(u.emit, exprs).value;
            Runnable(u.block.Keys, p) && (AliasesFit(u.block.Keys, p) <==> NoneTwice(ProjectedAliases(exprs)))
  {
    var p := Program(u.emit, exprs).value;
    ProgramIsRunnable(u, exprs);
    ProgramAliases(u, exprs);
    forall name, arg | HasAlias(p, name, arg)
      ensures arg in Available(u.block.Keys, p)
    {
      ProgramHasAlias(u, exprs, name, arg);
      AliasArgumentsThere(u, exprs, name, arg);
    }
  }

  // ----- Equal names mean equal values -----

  ghost predicate Occurs(fmt: Format, exprs: seq<Expression>, x: Expression, name: string)
  {
    Nameable(x) && ColumnName(fmt, x) == name && exists i :: 0 <= i < |exprs| && Below(x, exprs[i])
  }

  /** The block's columns, as a row. */
  ghost function BlockRow(s: Semantics, block: ColumnMap): Row
  {
    (name: string) => if name in block then block[name] else s.wildcard
  }

  ghost function ReadFrom(s: Semantics, row: Row, block: ColumnMap, e: Expression): Value
  {
    Reading(s, row, BlockRow(s, block), e)
  }

  /** Subexpressions, and columns of the block, that share a name share a value. */
  ghost predicate NoClash(s: Semantics, fmt: Format, row: Row, block: ColumnMap, exprs: seq<Expression>)
  {
    && (forall x, y, name :: Occurs(fmt, exprs, x, name) && Occurs(fmt, exprs, y, name) ==>
          ReadFrom(s, row, block, x) == ReadFrom(s, row, block, y))
    && (forall x, name :: Occurs(fmt, exprs, x, name) && name in block ==> block[name] == ReadFrom(s, row, block, x))
  }

  ghost function ValueUnder(s: Semantics, fmt: Format, row: Row, block: ColumnMap, exprs: seq<Expression>): Row
  {
    (name: string) =>
      if name in block then block[name]
      else if exists x :: Occurs(fmt, exprs, x, name) then
        var x :| Occurs(fmt, exprs, x, name); ReadFrom(s, row, block, x)
      else s.wildcard
  }

  lemma {:induction false} ReadingFromBlock(s: Semantics, row: Row, names: Row, block: ColumnMap, e: Expression)
    requires InputsReady(block.Keys, e) && forall n :: n in block ==> names(n) == block[n]
    ensures Reading(s, row, names, e) == ReadFrom(s, row, block, e)
    decreases e
  {
    if !e.Alias? {
      var cs := Children(e);
      forall i | 0 <= i < |cs|
        ensures Reading(s, row, names, cs[i]) == Reading(s, row, BlockRow(s, block), cs[i])
      {
        ReadingFromBlock(s, row, names, block, cs[i]);
      }
      assert seq(|cs|, i requires 0 <= i < |cs| => Reading(s, row, names, cs[i]))
          == seq(|cs|, i requires 0 <= i < |cs| => Reading(s, row, BlockRow(s, block), cs[i]));
    }
  }

  lemma {:induction false} BelowNamesAgree(
      s: Semantics, fmt: Format, row: Row, block: ColumnMap, exprs: seq<Expression>, i: nat, e: Expression)
    requires NoClash(s, fmt, row, block, exprs) && i < |exprs| && TopReady(block.Keys, e)
    requires forall x :: Below(x, e) ==> Below(x, exprs[i])
    ensures NamesAgree(s, fmt, row, ValueUnder(s, fmt, row, block, exprs), e)
    decreases e
  {
    var names := ValueUnder(s, fmt, row, block, exprs);
    assert Below(e, e);
    if Nameable(e) {
      assert Occurs(fmt, exprs, e, ColumnName(fmt, e));
      ReadingFromBlock(s, row, names, block, e);
    }
    forall j | 0 <= j < |Children(e)|
      ensures NamesAgree(s, fmt, row, names, Children(e)[j])
    {
      BelowNamesAgree(s, fmt, row, block, exprs, i, Children(e)[j]);
    }
  }

  /** Without clashes there is one value under each name. */
  lemma NoClashGivesValues(s: Semantics, fmt: Format, row: Row, block: ColumnMap, exprs: seq<Expression>)
    requires NoClash(s, fmt, row, block, exprs) && AllReady(block.Keys, exprs)
    ensures var names := ValueUnder(s, fmt, row, block, exprs);
            Sound(block, names, block) && forall i :: 0 <= i < |exprs| ==> NamesAgree(s, fmt, row, names, exprs[i])
  {
    forall i | 0 <= i < |exprs|
      ensures NamesAgree(s, fmt, row, ValueUnder(s, fmt, row, block, exprs), exprs[i])
    {
      BelowNamesAgree(s, fmt, row, block, exprs, i, exprs[i]);
    }
  }
}
